/**
 The CRC-32 shared by the client and the Pi (common/crc32.c): the byte-at-a-time loop over the
 table, the bit-serial form it speeds up, and the reading of both as operations on polynomials.
 */
module Crc32 {
  import opened Bytes
  import opened Gf2
  import opened BitSerial
  import opened CrcTable

  /** The register after a buffer has been shifted in, eight shift/xor operations a byte. */
  function Serial(c: bv32, buf: seq<byte>): bv32 {
    if buf == [] then c
    else Shift(Serial(c, buf[..|buf| - 1]) ^ (buf[|buf| - 1] as bv32), 8)
  }

  /** The checksum of a buffer, continuing from the checksum of what came before it. */
  function Crc(crc: bv32, buf: seq<byte>): bv32 {
    Serial(crc ^ 0xFFFF_FFFF, buf) ^ 0xFFFF_FFFF
  }

  // ---------- The bits of words and buffers ----------

  function Mask(i: nat): byte
    requires i < 8
  {
    match i case 0 => 1 case 1 => 2 case 2 => 4 case 3 => 8 case 4 => 16 case 5 => 32 case 6 => 64 case _ => 128
  }

  function ByteBits(b: byte): (s: bits)
    ensures |s| == 8
  {
    seq(8, i requires 0 <= i < 8 => b & Mask(i) != 0)
  }

  /** The bits of a buffer in the order a UART sends them: each byte from its lowest bit up. */
  function MsgBits(buf: seq<byte>): (s: bits)
    ensures |s| == 8 * |buf|
  {
    if buf == [] then [] else ByteBits(buf[0]) + MsgBits(buf[1..])
  }

  /** The coefficients held in a register: its lowest bit is the highest-order term. */
  function Bits(c: bv32): (s: bits)
    ensures |s| == 32
  {
    MsgBits(LE32(c))
  }

  lemma MaskXor(a: byte, b: byte, m: byte)
    requires m & (m - 1) == 0
    ensures ((a ^ b) & m != 0) == ((a & m != 0) != (b & m != 0))
  {
  }

  lemma MaskIsOneBit(i: nat)
    requires i < 8
    ensures Mask(i) & (Mask(i) - 1) == 0
  {
  }

  lemma ByteBitsXor(a: byte, b: byte)
    ensures ByteBits(a ^ b) == Xor(ByteBits(a), ByteBits(b))
  {
    forall i | 0 <= i < 8
      ensures ByteBits(a ^ b)[i] == (ByteBits(a)[i] != ByteBits(b)[i])
    {
      MaskIsOneBit(i);
      MaskXor(a, b, Mask(i));
    }
  }

  lemma XorAppend(a: bits, b: bits, c: bits, d: bits)
    requires |a| == |b| && |c| == |d|
    ensures Xor(a + c, b + d) == Xor(a, b) + Xor(c, d)
  {
  }

  lemma {:induction false} MsgBitsXor(a: seq<byte>, b: seq<byte>)
    requires |a| == |b|
    ensures MsgBits(XorBytes(a, b)) == Xor(MsgBits(a), MsgBits(b))
  {
    if a != [] {
      ByteBitsXor(a[0], b[0]);
      MsgBitsXor(a[1..], b[1..]);
      assert XorBytes(a, b)[1..] == XorBytes(a[1..], b[1..]);
      XorAppend(ByteBits(a[0]), ByteBits(b[0]), MsgBits(a[1..]), MsgBits(b[1..]));
    }
  }

  lemma LE32Xor(a: bv32, b: bv32)
    ensures LE32(a ^ b) == XorBytes(LE32(a), LE32(b))
  {
    ExtractXor(a, b);
    XorOfFour(LE32(a), LE32(b), LE32(a ^ b));
  }

  lemma ExtractXor(a: bv32, b: bv32)
    ensures LE32(a ^ b)[0] == LE32(a)[0] ^ LE32(b)[0]
    ensures LE32(a ^ b)[1] == LE32(a)[1] ^ LE32(b)[1]
    ensures LE32(a ^ b)[2] == LE32(a)[2] ^ LE32(b)[2]
    ensures LE32(a ^ b)[3] == LE32(a)[3] ^ LE32(b)[3]
  {
  }

  lemma XorOfFour(s: seq<byte>, t: seq<byte>, x: seq<byte>)
    requires |s| == |t| == |x| == 4
    requires x[0] == s[0] ^ t[0] && x[1] == s[1] ^ t[1] && x[2] == s[2] ^ t[2] && x[3] == s[3] ^ t[3]
    ensures x == XorBytes(s, t)
  {
    forall i | 0 <= i < 4 ensures x[i] == XorBytes(s, t)[i] {
      if i < 2 { assert i == 0 || i == 1; } else { assert i == 2 || i == 3; }
    }
  }

  lemma BitsXor(a: bv32, b: bv32)
    ensures Bits(a ^ b) == Xor(Bits(a), Bits(b))
  {
    LE32Xor(a, b);
    MsgBitsXor(LE32(a), LE32(b));
  }

  lemma ByteBitsInjective(a: byte, b: byte)
    requires ByteBits(a) == ByteBits(b)
    ensures a == b
  {
    var s, t := ByteBits(a), ByteBits(b);
    assert s[0] == t[0] && s[1] == t[1] && s[2] == t[2] && s[3] == t[3];
    assert s[4] == t[4] && s[5] == t[5] && s[6] == t[6] && s[7] == t[7];
  }

  lemma {:induction false} MsgBitsInjective(a: seq<byte>, b: seq<byte>)
    requires MsgBits(a) == MsgBits(b)
    ensures a == b
  {
    if a != [] {
      assert |a| == |b|;
      var s, t := MsgBits(a), MsgBits(b);
      assert s[..8] == ByteBits(a[0]) && t[..8] == ByteBits(b[0]);
      assert s[8..] == MsgBits(a[1..]) && t[8..] == MsgBits(b[1..]);
      ByteBitsInjective(a[0], b[0]);
      MsgBitsInjective(a[1..], b[1..]);
    } else {
      assert |b| == 0;
    }
  }

  lemma BitsInjective(a: bv32, b: bv32)
    requires Bits(a) == Bits(b)
    ensures a == b
  {
    MsgBitsInjective(LE32(a), LE32(b));
    var s, t := LE32(a), LE32(b);
    assert s[0] == t[0] && s[1] == t[1] && s[2] == t[2] && s[3] == t[3];
  }

  lemma ByteShift(lo: byte, hi: byte)
    ensures ByteBits((lo >> 1) | (hi << 7)) == ByteBits(lo)[1..] + ByteBits(hi)[..1]
  {
  }

  /** t is s, moved down by one bit. */
  ghost predicate MovedDown(s: seq<byte>, t: seq<byte>)
    requires |s| == |t| == 4
  {
    t[0] == (s[0] >> 1) | (s[1] << 7) && t[1] == (s[1] >> 1) | (s[2] << 7) &&
    t[2] == (s[2] >> 1) | (s[3] << 7) && t[3] == (s[3] >> 1) | (0 << 7)
  }

  lemma LE32Shift(c: bv32)
    ensures MovedDown(LE32(c), LE32(c >> 1))
  {
  }

  lemma MsgBitsFirst(x: byte, s: seq<byte>, a: seq<byte>)
    requires a == [x] + s
    ensures MsgBits(a) == ByteBits(x) + MsgBits(s)
  {
    assert a[0] == x && a[1..] == s;
  }

  lemma {:induction false} MsgBitsConcat(a: seq<byte>, b: seq<byte>)
    ensures MsgBits(a + b) == MsgBits(a) + MsgBits(b)
  {
    if a == [] {
      assert a + b == b;
    } else {
      var x, s := a[0], a[1..];
      assert a == [x] + s;
      MsgBitsConcat(s, b);
      MsgBitsFirst(x, s, a);
      Regrouped([x], s, b);
      MsgBitsFirst(x, s + b, a + b);
      Regrouped(ByteBits(x), MsgBits(s), MsgBits(b));
    }
  }

  lemma MsgBitsOne(x: byte)
    ensures MsgBits([x]) == ByteBits(x)
  {
    assert [x][1..] == [];
  }

  lemma MsgBitsFour(s: seq<byte>)
    requires |s| == 4
    ensures MsgBits(s) == ByteBits(s[0]) + ByteBits(s[1]) + ByteBits(s[2]) + ByteBits(s[3])
  {
    MsgBitsConcat([s[0]], [s[1]]);
    MsgBitsConcat([s[0]] + [s[1]], [s[2]]);
    MsgBitsConcat([s[0]] + [s[1]] + [s[2]], [s[3]]);
    MsgBitsOne(s[0]);
    MsgBitsOne(s[1]);
    MsgBitsOne(s[2]);
    MsgBitsOne(s[3]);
    assert s == [s[0]] + [s[1]] + [s[2]] + [s[3]];
  }

  lemma ShiftAppend(a: bits, b: bits, c: bits, d: bits)
    requires |a| == |b| == |c| == |d| == 8
    ensures (a[1..] + b[..1]) + (b[1..] + c[..1]) + (c[1..] + d[..1]) + (d[1..] + [false])
         == (a + b + c + d)[1..] + [false]
  {
  }

  lemma MsgBitsShift(s: seq<byte>, t: seq<byte>)
    requires |s| == |t| == 4 && MovedDown(s, t)
    ensures MsgBits(t) == MsgBits(s)[1..] + [false]
  {
    MsgBitsFour(s);
    MsgBitsFour(t);
    ByteShift(s[0], s[1]);
    ByteShift(s[1], s[2]);
    ByteShift(s[2], s[3]);
    ByteShift(s[3], 0);
    ShiftAppend(ByteBits(s[0]), ByteBits(s[1]), ByteBits(s[2]), ByteBits(s[3]));
  }

  lemma BitsShift(c: bv32)
    ensures Bits(c >> 1) == Bits(c)[1..] + [false]
  {
    LE32Shift(c);
    MsgBitsShift(LE32(c), LE32(c >> 1));
  }

  /** The constant of the shift/xor operation is the polynomial of the header comment. */
  lemma GeneratorBits()
    ensures Bits(0xEDB88320) == Generator()[1..]
  {
    MsgBitsFour(LE32(0xEDB88320));
  }

  lemma BitsLow(c: bv32)
    ensures Bits(c)[0] == (c & 1 == 1)
  {
  }

  lemma BitsDownByte(c: bv32)
    ensures Bits(c >> 8) == Bits(c)[8..] + Zeros(8)
  {
    var s := LE32(c);
    MsgBitsConcat(s[..1], s[1..]);
    MsgBitsConcat(s[1..], [0]);
    MsgBitsOne(0);
    assert s == s[..1] + s[1..];
    assert LE32(c >> 8) == s[1..] + [0];
    assert ByteBits(0) == Zeros(8);
  }

  lemma BitsByte(b: bv8)
    ensures Bits(b as bv32) == ByteBits(b) + Zeros(24)
  {
    MsgBitsFour(LE32(b as bv32));
  }

  lemma StepBits(c: bv32)
    ensures Bits(Step(c)) == Shift1(Bits(c))
  {
    BitsLow(c);
    BitsShift(c);
    GeneratorBits();
    BitsXor(c >> 1, 0xEDB88320);
    assert Xor(Bits(c)[1..] + [false], Zeros(32)) == Bits(c)[1..] + [false];
  }

  lemma FeedZero(r: bits, n: nat)
    requires |r| == 32 && n > 0
    ensures Feed(r, Zeros(n)) == Shift1(Feed(r, Zeros(n - 1)))
  {
    assert Zeros(n)[..n - 1] == Zeros(n - 1);
    FeedBitFalse(Feed(r, Zeros(n - 1)));
  }

  lemma {:induction false} ShiftBits(c: bv32, n: nat)
    ensures Bits(Shift(c, n)) == Feed(Bits(c), Zeros(n))
  {
    if n > 0 {
      ShiftBits(c, n - 1);
      StepBits(Shift(c, n - 1));
      FeedZero(Bits(c), n);
    }
  }

  /** A byte may be added to the low eight bits at once, then shifted through. */
  lemma FeedByte(c: bv32, b: byte)
    ensures Feed(Bits(c), ByteBits(b)) == Feed(Bits(c ^ (b as bv32)), Zeros(8))
  {
    BitsXor(c, b as bv32);
    BitsByte(b);
    FeedAtOnce(Bits(c), ByteBits(b));
  }

  lemma ShiftByte(c: bv32, b: byte)
    ensures Bits(Shift(c ^ (b as bv32), 8)) == Feed(Bits(c), ByteBits(b))
  {
    ShiftBits(c ^ (b as bv32), 8);
    FeedByte(c, b);
  }

  lemma MsgBitsSnoc(buf: seq<byte>, p: nat)
    requires p < |buf|
    ensures MsgBits(buf[..p + 1]) == MsgBits(buf[..p]) + ByteBits(buf[p])
  {
    assert buf[..p + 1] == buf[..p] + [buf[p]];
    MsgBitsConcat(buf[..p], [buf[p]]);
    MsgBitsOne(buf[p]);
  }

  lemma FeedSnoc(r: bits, buf: seq<byte>, p: nat)
    requires |r| == 32 && p < |buf|
    ensures Feed(r, MsgBits(buf[..p + 1])) == Feed(Feed(r, MsgBits(buf[..p])), ByteBits(buf[p]))
  {
    MsgBitsSnoc(buf, p);
    FeedConcat(r, MsgBits(buf[..p]), ByteBits(buf[p]));
  }

  /** The bit-serial form feeds the message bits to the register one after the other. */
  lemma {:induction false} SerialBits(c: bv32, buf: seq<byte>)
    ensures Bits(Serial(c, buf)) == Feed(Bits(c), MsgBits(buf))
  {
    if buf != [] {
      var k := |buf| - 1;
      SerialBits(c, buf[..k]);
      ShiftByte(Serial(c, buf[..k]), buf[k]);
      FeedSnoc(Bits(c), buf, k);
      assert buf[..k + 1] == buf;
    }
  }

  // ---------- The byte loop ----------

  lemma TableEntryBits(i: byte)
    ensures |CRC32_TAB| == 256
    ensures Bits(CRC32_TAB[i as int]) == Feed(ByteBits(i) + Zeros(24), Zeros(8))
  {
    TableEntry(i);
    ShiftBits(i as bv32, 8);
    BitsByte(i);
  }

  /** Only the low eight bits meet the feedback; the others move down. */
  lemma FeedLow(x: bv32, i: byte)
    requires i == (x & 0xFF) as bv8
    ensures Feed(Bits(x), Zeros(8)) == Xor(Feed(ByteBits(i) + Zeros(24), Zeros(8)), Bits(x >> 8))
  {
    BitsDownByte(x);
    FeedHigh(Bits(x), 8);
    assert Bits(x)[..8] == ByteBits(i);
  }

  lemma HighUnchanged(c: bv32, b: byte)
    ensures (c ^ (b as bv32)) >> 8 == c >> 8
  {
  }

  lemma FeedIndex(c: bv32, b: byte, i: byte)
    requires i == ((c ^ (b as bv32)) & 0xFF) as bv8
    ensures Feed(Bits(c), ByteBits(b)) == Xor(Feed(ByteBits(i) + Zeros(24), Zeros(8)), Bits(c >> 8))
  {
    FeedByte(c, b);
    HighUnchanged(c, b);
    FeedLow(c ^ (b as bv32), i);
  }

  /** The table entry a message byte selects: added to the shifted register, it feeds the byte. */
  method LookUp(c: bv32, b: byte) returns (t: bv32)
    ensures Feed(Bits(c), ByteBits(b)) == Xor(Bits(t), Bits(c >> 8))
  {
    var i := ((c ^ (b as bv32)) & 0xFF) as bv8;
    TableEntryBits(i);
    FeedIndex(c, b, i);
    t := CRC32_TAB[i as int];
  }

  lemma SerialByBits(c0: bv32, buf: seq<byte>, c: bv32)
    requires Bits(c) == Feed(Bits(c0), MsgBits(buf))
    ensures c == Serial(c0, buf)
  {
    SerialBits(c0, buf);
    BitsInjective(c, Serial(c0, buf));
  }

  /** The loop over the buffer, one table look-up a byte. */
  method UpdateRegister(c0: bv32, buf: seq<byte>) returns (c: bv32)
    ensures c == Serial(c0, buf)
  {
    c := c0;
    var p := 0;
    while p < |buf|
      invariant 0 <= p <= |buf|
      invariant Bits(c) == Feed(Bits(c0), MsgBits(buf[..p]))
    {
      var t := LookUp(c, buf[p]);
      BitsXor(t, c >> 8);
      FeedSnoc(Bits(c0), buf, p);
      c := t ^ (c >> 8);
      p := p + 1;
    }
    assert buf[..p] == buf;
    SerialByBits(c0, buf, c);
  }

  /** The checksum as both ends compute it is the bit-serial one. */
  method Crc32(crc: bv32, buf: seq<byte>) returns (r: bv32)
    ensures r == Crc(crc, buf)
  {
    var c := UpdateRegister(crc ^ 0xFFFF_FFFF, buf);
    r := c ^ 0xFFFF_FFFF;
  }
}
