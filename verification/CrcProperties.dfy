/** What the checksum promises, for messages of every length. */
module CrcProperties {
  import opened Bytes
  import opened Gf2
  import opened BitSerial
  import opened CrcTable
  import opened Crc32

  /** The register behind a checksum: the final complement undone. */
  lemma CrcBits(crc: bv32, buf: seq<byte>)
    ensures Bits(Crc(crc, buf) ^ 0xFFFF_FFFF) == Feed(Bits(crc ^ 0xFFFF_FFFF), MsgBits(buf))
  {
    var s := Serial(crc ^ 0xFFFF_FFFF, buf);
    ComplementTwice(s);
    SerialBits(crc ^ 0xFFFF_FFFF, buf);
  }

  lemma ComplementTwice(c: bv32)
    ensures (c ^ 0xFFFF_FFFF) ^ 0xFFFF_FFFF == c
  {
  }

  lemma BitsOfOnes()
    ensures Bits(0 ^ 0xFFFF_FFFF) == Ones(32)
  {
    MsgBitsFour(LE32(0xFFFF_FFFF));
  }

  /** The checksum is the remainder of the preloaded message times x^32; nothing else is. */
  lemma CrcIsRemainder(buf: seq<byte>, q: bits, r: bits)
    requires |q| == 8 * |buf| && |r| == 32
    ensures Division(Preloaded(Ones(32), MsgBits(buf)), Generator(), q, r)
       <==> q == Quotient(Ones(32), MsgBits(buf)) && r == Bits(Crc(0, buf) ^ 0xFFFF_FFFF)
  {
    var m, g := MsgBits(buf), Generator();
    CrcBits(0, buf);
    BitsOfOnes();
    FeedIsDivision(Ones(32), m);
    if Division(Preloaded(Ones(32), m), g, q, r) {
      DivisionUnique(Preloaded(Ones(32), m), g, q, r, Quotient(Ones(32), m), Feed(Ones(32), m));
    }
  }

  /** b is a with errors, all of them within the 32 bits from bit p on. */
  ghost predicate Burst(a: seq<byte>, b: seq<byte>, p: nat) {
    |a| == |b| && a != b &&
    forall i | 0 <= i < 8 * |a| && !(p <= i < p + 32) :: MsgBits(a)[i] == MsgBits(b)[i]
  }

  /** A burst of errors is always detected. */
  lemma BurstDetected(crc: bv32, a: seq<byte>, b: seq<byte>, p: nat)
    requires Burst(a, b, p)
    ensures Crc(crc, a) != Crc(crc, b)
  {
    if MsgBits(a) == MsgBits(b) { MsgBitsInjective(a, b); }
    CrcBits(crc, a);
    CrcBits(crc, b);
    BurstChangesRegister(Bits(crc ^ 0xFFFF_FFFF), MsgBits(a), MsgBits(b), p);
  }

  /** A checksum may be continued: from the checksum of one buffer over the next. */
  lemma CrcConcat(crc: bv32, a: seq<byte>, b: seq<byte>)
    ensures Crc(Crc(crc, a), b) == Crc(crc, a + b)
  {
    var c := crc ^ 0xFFFF_FFFF;
    CrcBits(Crc(crc, a), b);
    CrcBits(crc, a);
    CrcBits(crc, a + b);
    MsgBitsConcat(a, b);
    FeedConcat(Bits(c), MsgBits(a), MsgBits(b));
    SameChecksum(Crc(Crc(crc, a), b), Crc(crc, a + b));
  }

  lemma SameChecksum(x: bv32, y: bv32)
    requires Bits(x ^ 0xFFFF_FFFF) == Bits(y ^ 0xFFFF_FFFF)
    ensures x == y
  {
    BitsInjective(x ^ 0xFFFF_FFFF, y ^ 0xFFFF_FFFF);
    ComplementTwice(x);
    ComplementTwice(y);
  }

  /** The checksum is affine: it commutes, bit by bit, with the exclusive or of three buffers of one length. */
  lemma CrcAffine(crc: bv32, a: seq<byte>, b: seq<byte>, c: seq<byte>)
    requires |a| == |b| == |c|
    ensures Bits(Crc(crc, XorBytes(XorBytes(a, b), c)))
         == Xor(Xor(Bits(Crc(crc, a)), Bits(Crc(crc, b))), Bits(Crc(crc, c)))
  {
    var r := Bits(crc ^ 0xFFFF_FFFF);
    MsgBitsXor(a, b);
    MsgBitsXor(XorBytes(a, b), c);
    FeedOfThree(r, MsgBits(a), MsgBits(b), MsgBits(c));
    ComplementBits(crc, a);
    ComplementBits(crc, b);
    ComplementBits(crc, c);
    ComplementBits(crc, XorBytes(XorBytes(a, b), c));
  }

  lemma ComplementBits(crc: bv32, buf: seq<byte>)
    ensures Bits(Crc(crc, buf)) == Xor(Feed(Bits(crc ^ 0xFFFF_FFFF), MsgBits(buf)), Ones(32))
  {
    SerialBits(crc ^ 0xFFFF_FFFF, buf);
    BitsXor(Serial(crc ^ 0xFFFF_FFFF, buf), 0xFFFF_FFFF);
    BitsOfOnes();
  }

  lemma FeedOfThree(r: bits, a: bits, b: bits, c: bits)
    requires |r| == 32 && |a| == |b| == |c|
    ensures Feed(r, Xor(Xor(a, b), c)) == Xor(Xor(Feed(r, a), Feed(r, b)), Feed(r, c))
  {
    XorZeros(r, r);
    FeedLinear(r, r, a, b);
    FeedLinear(Zeros(32), r, Xor(a, b), c);
    assert Xor(Zeros(32), r) == r;
  }

  /** A message followed by its own checksum has the same checksum whatever the message was. */
  lemma CrcResidue(buf: seq<byte>)
    ensures Crc(0, buf + LE32(Crc(0, buf))) == 0x2144DF1C
  {
    CrcConcat(0, buf, LE32(Crc(0, buf)));
    OwnChecksum(Crc(0, buf));
  }

  /** Any checksum, continued over its own bytes. */
  lemma OwnChecksum(c: bv32)
    ensures Crc(c, LE32(c)) == 0x2144DF1C
  {
    ResidueConstant();
    OwnBytes(c, LE32(c), 0x2144DF1C);
  }

  lemma OwnBytes(c: bv32, buf: seq<byte>, x: bv32)
    requires MsgBits(buf) == Bits(c) && Bits(x ^ 0xFFFF_FFFF) == Feed(Ones(32), Zeros(32))
    ensures Crc(c, buf) == x
  {
    CrcBits(c, buf);
    OwnBits(c);
    SameChecksum(Crc(c, buf), x);
  }

  /** Feeding a register the complement of its own bits is shifting 32 ones through it. */
  lemma OwnBits(c: bv32)
    ensures Feed(Bits(c ^ 0xFFFF_FFFF), Bits(c)) == Feed(Ones(32), Zeros(32))
  {
    BitsXor(c, 0xFFFF_FFFF);
    BitsOfOnes();
    FeedComplement(Bits(c), Bits(c ^ 0xFFFF_FFFF));
  }

  lemma FeedComplement(c: bits, r: bits)
    requires |c| == 32 && r == Xor(c, Ones(32))
    ensures Feed(r, c) == Feed(Ones(32), Zeros(32))
  {
    FeedAtOnce(r, c);
    assert Xor(r, c + Zeros(0)) == Ones(32);
  }

  lemma EightMore(c: bv32, d: bv32, n: nat)
    requires Bits(c) == Feed(Ones(32), Zeros(n))
    requires d == Step8(c)
    ensures Bits(d) == Feed(Ones(32), Zeros(n + 8))
  {
    ShiftBits(c, 8);
    ShiftEight(c);
    FeedConcat(Ones(32), Zeros(n), Zeros(8));
    assert Zeros(n) + Zeros(8) == Zeros(n + 8);
  }

  lemma ThirtyTwoMore(c: bv32, d: bv32)
    requires Bits(c) == Ones(32) && d == Step8(Step8(Step8(Step8(c))))
    ensures Bits(d) == Feed(Ones(32), Zeros(32))
  {
    var x, y, z := Step8(c), Step8(Step8(c)), Step8(Step8(Step8(c)));
    EightMore(c, x, 0);
    EightMore(x, y, 8);
    EightMore(y, z, 16);
    EightMore(z, d, 24);
  }

  lemma ResidueSteps()
    ensures Step8(Step8(Step8(Step8(0xFFFF_FFFF)))) == 0xDEBB20E3
  {
    assert Step8(0xFFFF_FFFF) == 0x2DFD1072;
    assert Step8(0x2DFD1072) == 0xBE26ED00;
    assert Step8(0xBE26ED00) == 0x00BE26ED;
    assert Step8(0x00BE26ED) == 0xDEBB20E3;
  }

  lemma ResidueConstant()
    ensures Bits(0x2144DF1C ^ 0xFFFF_FFFF) == Feed(Ones(32), Zeros(32))
  {
    BitsOfOnes();
    ResidueSteps();
    ThirtyTwoMore(0xFFFF_FFFF, 0xDEBB20E3);
  }
}
