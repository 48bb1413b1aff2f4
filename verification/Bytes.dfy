/** Bytes and the little-endian layout of 32-bit words. */
module Bytes {

  type byte = bv8

  const SPACE := 0x1_0000_0000

  /** A 32-bit word used as a number: an address or a size. */
  type u32 = x: int | 0 <= x < SPACE

  /** The four bytes of a word used as a bit pattern, lowest first. */
  function LE32(v: bv32): (s: seq<byte>)
    ensures |s| == 4
  {
    [(v & 0xFF) as bv8, ((v >> 8) & 0xFF) as bv8, ((v >> 16) & 0xFF) as bv8, (v >> 24) as bv8]
  }

  function FromLE32(s: seq<byte>): bv32
    requires |s| == 4
  {
    (s[0] as bv32) | ((s[1] as bv32) << 8) | ((s[2] as bv32) << 16) | ((s[3] as bv32) << 24)
  }

  /** The four bytes of a word used as a number, lowest first. */
  function LENum(v: u32): (s: seq<byte>)
    ensures |s| == 4
  {
    [(v % 256) as bv8, (v / 256 % 256) as bv8, (v / 65536 % 256) as bv8, (v / 16777216) as bv8]
  }

  function FromLENum(s: seq<byte>): u32
    requires |s| == 4
  {
    s[0] as int + 256 * (s[1] as int) + 65536 * (s[2] as int) + 16777216 * (s[3] as int)
  }

  lemma LE32RoundTrip(v: bv32)
    ensures FromLE32(LE32(v)) == v
  {
  }

  lemma FromLE32Extract(a: byte, b: byte, c: byte, d: byte)
    ensures var v := (a as bv32) | ((b as bv32) << 8) | ((c as bv32) << 16) | ((d as bv32) << 24);
      (v & 0xFF) as bv8 == a && ((v >> 8) & 0xFF) as bv8 == b && ((v >> 16) & 0xFF) as bv8 == c && (v >> 24) as bv8 == d
  {
  }

  lemma Regrouped<T>(a: seq<T>, b: seq<T>, c: seq<T>)
    ensures a + b + c == a + (b + c)
  {
  }

  lemma EmptyEnds<T>(s: seq<T>)
    ensures s + [] == s && [] + s == s
  {
  }

  /** The first k pieces, one behind the other. */
  function Joined(p: seq<seq<byte>>, k: nat): seq<byte>
    requires k <= |p|
  {
    if k == 0 then [] else Joined(p, k - 1) + p[k - 1]
  }

  lemma FourBytes(s: seq<byte>)
    requires |s| == 4
    ensures s == [s[0], s[1], s[2], s[3]]
  {
  }

  lemma FromLE32RoundTrip(s: seq<byte>)
    requires |s| == 4
    ensures LE32(FromLE32(s)) == s
  {
    FromLE32Extract(s[0], s[1], s[2], s[3]);
    FourBytes(s);
  }

  lemma NextByte(b: byte)
    requires b != 255
    ensures (b + 1) as int == b as int + 1
  {
  }

  lemma {:induction false} ByteOfValue(x: nat) returns (b: byte)
    requires x < 256
    ensures b as int == x
  {
    if x == 0 { return 0; }
    b := ByteOfValue(x - 1);
    NextByte(b);
    b := b + 1;
  }

  lemma ByteOfByte(b: byte)
    ensures (b as int) as bv8 == b
  {
  }

  lemma ByteOfInt(x: int)
    requires 0 <= x < 256
    ensures (x as bv8) as int == x
  {
    var b := ByteOfValue(x);
    ByteOfByte(b);
  }

  lemma LENumRoundTrip(v: u32)
    ensures FromLENum(LENum(v)) == v
  {
    ByteOfInt(v % 256);
    ByteOfInt(v / 256 % 256);
    ByteOfInt(v / 65536 % 256);
    ByteOfInt(v / 16777216);
    Digits(v);
  }

  lemma Digits(v: u32)
    ensures v == v % 256 + 256 * (v / 256 % 256) + 65536 * (v / 65536 % 256) + 16777216 * (v / 16777216)
  {
    assert v / 65536 == v / 256 / 256;
    assert v / 16777216 == v / 65536 / 256;
  }

  lemma DigitsOf(a: int, b: int, c: int, d: int, v: int)
    requires 0 <= a < 256 && 0 <= b < 256 && 0 <= c < 256 && 0 <= d < 256
    requires v == a + 256 * b + 65536 * c + 16777216 * d
    ensures v % 256 == a && v / 256 % 256 == b && v / 65536 % 256 == c && v / 16777216 == d
  {
    assert v / 256 == b + 256 * c + 65536 * d;
    assert v / 65536 == c + 256 * d;
  }

  lemma FromLENumRoundTrip(s: seq<byte>)
    requires |s| == 4
    ensures LENum(FromLENum(s)) == s
  {
    DigitsOf(s[0] as int, s[1] as int, s[2] as int, s[3] as int, FromLENum(s));
    ByteOfByte(s[0]);
    ByteOfByte(s[1]);
    ByteOfByte(s[2]);
    ByteOfByte(s[3]);
    FourBytes(s);
  }

  /** The exclusive or of two buffers of the same length. */
  function XorBytes(a: seq<byte>, b: seq<byte>): (c: seq<byte>)
    requires |a| == |b|
    ensures |c| == |a|
  {
    seq(|a|, i requires 0 <= i < |a| => a[i] ^ b[i])
  }
}
