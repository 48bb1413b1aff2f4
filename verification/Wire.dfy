/**
 What is on the line, byte by byte (common/bootproto.h, client/bootproto.c, raspi/bootrpi.c): the codes, the order of
 the fields and of their bytes, and what either side makes of the codes it reads.
 */
module Wire {
  import opened Bytes
  import opened Memory
  import opened Protocol
  import opened Bootproto
  import opened Pi
  import opened BootArea
  import Crc32

  /** The bytes s are the digits of v to the base 256, lowest first. */
  ghost predicate Spells(s: seq<byte>, v: u32) {
    |s| == 4 &&
    s[0] as int == v % 256 && s[1] as int == v / 0x100 % 256 &&
    s[2] as int == v / 0x1_0000 % 256 && s[3] as int == v / 0x100_0000 % 256
  }

  /** The bytes s are those of the word w, lowest first. */
  ghost predicate Holds(s: seq<byte>, w: bv32) {
    |s| == 4 && w == ((s[3] as bv32) << 24) | ((s[2] as bv32) << 16) | ((s[1] as bv32) << 8) | (s[0] as bv32)
  }

  lemma NumberSpelled(v: u32)
    ensures Spells(LENum(v), v)
  {
    ByteOfInt(v % 256);
    ByteOfInt(v / 256 % 256);
    ByteOfInt(v / 65536 % 256);
    ByteOfInt(v / 16777216);
  }

  lemma TopDigit(v: u32)
    ensures v / 16777216 % 256 == v / 16777216
  {
    assert 0 <= v / 16777216 < 256;
  }

  lemma SumOfDigits(a: int, b: int, c: int, d: int, v: u32)
    requires a == v % 256 && b == v / 256 % 256 && c == v / 65536 % 256 && d == v / 16777216 % 256
    ensures a + 256 * b + 65536 * c + 16777216 * d == v
  {
    TopDigit(v);
    Digits(v);
  }

  lemma SpelledNumber(s: seq<byte>, v: u32)
    requires Spells(s, v)
    ensures FromLENum(s) == v
  {
    SumOfDigits(s[0] as int, s[1] as int, s[2] as int, s[3] as int, v);
  }

  lemma WordHeld(w: bv32)
    ensures Holds(LE32(w), w)
  {
    LE32RoundTrip(w);
  }

  lemma HeldWord(s: seq<byte>, w: bv32)
    requires |s| == 4
    ensures Holds(s, w) <==> FromLE32(s) == w
  {
  }

  // ---------- What the client writes ----------

  function TypeBytes(r: Request): seq<byte> {
    match r
    case Ping => [0x50, 0x49, 0x4e, 0x47]
    case Load(_, _) => [0x4c, 0x4f, 0x41, 0x44]
    case Zero(_, _, _) => [0x5a, 0x45, 0x52, 0x4f]
    case Exec(_, _) => [0x45, 0x58, 0x45, 0x43]
    case Reboot => [0x58, 0x98, 0x93, 0x48]
  }

  function AddressOf(r: Request): u32 {
    if r.Load? || r.Zero? || r.Exec? then r.address else 0
  }

  function SizeOf(r: Request): u32
    requires Sendable(r)
  {
    match r
    case Load(_, d) => |d|
    case Zero(_, n, _) => n
    case _ => 0
  }

  function ChecksumOf(r: Request): bv32 {
    if r.Load? then Crc32.Crc(0, r.data) else 0
  }

  /** The lowest byte of the flags; the others are zero. */
  function FlagByte(r: Request): byte {
    if r.Exec? && r.noWatchdog then 1 else if r.Zero? && r.beef then 2 else 0
  }

  lemma TypeOnLine(r: Request)
    requires Sendable(r)
    ensures LE32(HeaderOf(r).pType) == TypeBytes(r)
  {
  }

  lemma FlagCodes()
    ensures LE32(BPF_NOWD) == [1, 0, 0, 0] && LE32(BPF_BEEF) == [2, 0, 0, 0] && LE32(0) == [0, 0, 0, 0]
  {
  }

  lemma FlagsOnLine(r: Request)
    requires Sendable(r)
    ensures LE32(HeaderOf(r).flags) == [FlagByte(r), 0, 0, 0]
  {
    FlagCodes();
    var flags := HeaderOf(r).flags;
    if r.Exec? && r.noWatchdog {
      assert flags == BPF_NOWD;
    } else if r.Zero? && r.beef {
      assert flags == BPF_BEEF;
    } else {
      assert flags == 0;
    }
  }

  lemma SixPieces(a: seq<byte>, b: seq<byte>, c: seq<byte>, d: seq<byte>, e: seq<byte>, p: seq<byte>)
    requires |a| == |b| == |c| == |d| == |e| == 4
    ensures var f := a + b + c + d + e + p;
      f[..4] == a && f[4..8] == b && f[8..12] == c && f[12..16] == d && f[16..20] == e && f[20..] == p
  {
    var f := a + b + c + d + e + p;
    assert f[..4] == a;
    assert f[4..8] == b;
    assert f[8..12] == c;
    assert f[12..16] == d;
    assert f[16..20] == e;
    assert f[20..] == p;
  }

  lemma FieldBytes(h: Header, d: seq<byte>)
    ensures var f := EncodeHeader(h) + d;
      f[..4] == LE32(h.pType) && f[4..8] == LENum(h.address) && f[8..12] == LENum(h.size) &&
      f[12..16] == LE32(h.crc32) && f[16..20] == LE32(h.flags) && f[20..] == d
  {
    SixPieces(LE32(h.pType), LENum(h.address), LENum(h.size), LE32(h.crc32), LE32(h.flags), d);
  }

  lemma HeaderFields(r: Request)
    requires Sendable(r)
    ensures var h := HeaderOf(r); h.address == AddressOf(r) && h.size == SizeOf(r) && h.crc32 == ChecksumOf(r)
  {
  }

  /** Everything that is written for a request: the code of its type, address, size, checksum, flags, and its data. */
  lemma FrameBytes(r: Request)
    requires Sendable(r)
    ensures var f := Frame(r);
      f[..4] == TypeBytes(r) && Spells(f[4..8], AddressOf(r)) && Spells(f[8..12], SizeOf(r)) &&
      Holds(f[12..16], ChecksumOf(r)) && f[16..20] == [FlagByte(r), 0, 0, 0] &&
      f[20..] == if r.Load? then r.data else []
  {
    var h := HeaderOf(r);
    FieldBytes(h, PayloadOf(r));
    TypeOnLine(r);
    HeaderFields(r);
    NumberSpelled(h.address);
    NumberSpelled(h.size);
    WordHeld(h.crc32);
    FlagsOnLine(r);
  }

  // ---------- What the Pi answers ----------

  lemma CodeRead(s: seq<byte>, code: seq<byte>, w: bv32)
    requires |s| == 4 && code == LE32(w)
    ensures s == code <==> FromLE32(s) == w
  {
    FromLE32RoundTrip(s);
    LE32RoundTrip(w);
  }

  lemma TypeCodes()
    ensures LE32(BPT_PING) == [0x50, 0x49, 0x4e, 0x47] && LE32(BPT_LOAD) == [0x4c, 0x4f, 0x41, 0x44]
    ensures LE32(BPT_ZERO) == [0x5a, 0x45, 0x52, 0x4f] && LE32(BPT_EXEC) == [0x45, 0x58, 0x45, 0x43]
    ensures LE32(BPT_REBOOT) == [0x58, 0x98, 0x93, 0x48]
  {
  }

  /** The type that the Pi reads, by the four bytes of its code. */
  lemma TypeOf(s: seq<byte>)
    requires |s| == 4
    ensures s == [0x50, 0x49, 0x4e, 0x47] <==> FromLE32(s) == BPT_PING
    ensures s == [0x4c, 0x4f, 0x41, 0x44] <==> FromLE32(s) == BPT_LOAD
    ensures s == [0x5a, 0x45, 0x52, 0x4f] <==> FromLE32(s) == BPT_ZERO
    ensures s == [0x45, 0x58, 0x45, 0x43] <==> FromLE32(s) == BPT_EXEC
    ensures s == [0x58, 0x98, 0x93, 0x48] <==> FromLE32(s) == BPT_REBOOT
  {
    TypeCodes();
    CodeRead(s, LE32(BPT_PING), BPT_PING);
    CodeRead(s, LE32(BPT_LOAD), BPT_LOAD);
    CodeRead(s, LE32(BPT_ZERO), BPT_ZERO);
    CodeRead(s, LE32(BPT_EXEC), BPT_EXEC);
    CodeRead(s, LE32(BPT_REBOOT), BPT_REBOOT);
  }

  lemma ReplyCodes()
    ensures EncodeResponse(Response(BPR_RDY, 0)) == [0x52, 0x44, 0x59, 0x0a, 0, 0, 0, 0]
    ensures EncodeResponse(Response(BPR_ACK, 0)) == [0x41, 0x43, 0x4b, 0x0a, 0, 0, 0, 0]
    ensures EncodeResponse(Response(BPR_ERR, BPE_CRC)) == [0x45, 0x52, 0x52, 0x0a, 1, 0, 0, 0]
    ensures EncodeResponse(Response(BPR_ERR, BPE_OVR)) == [0x45, 0x52, 0x52, 0x0a, 2, 0, 0, 0]
  {
  }

  lemma ErrorCode(s: seq<byte>)
    requires |s| == 4
    ensures EncodeResponse(Response(BPR_ERR, FromLE32(s))) == [0x45, 0x52, 0x52, 0x0a] + s
  {
    FromLE32RoundTrip(s);
    assert LE32(BPR_ERR) == [0x45, 0x52, 0x52, 0x0a];
  }

  /** One of the ends of the n addresses from a on lies in the program of the Pi or in the page below it. */
  ghost predicate EndInside(area: Area, a: u32, n: u32) {
    area.runAddr - 4096 <= a < area.runEnd || area.runAddr - 4096 <= (a + n) % 0x1_0000_0000 < area.runEnd
  }

  /** The header that the Pi reads from the bytes rx. */
  lemma HeaderSpelled(rx: seq<byte>, a: u32, n: u32) returns (h: Header)
    requires |rx| >= 20 && Spells(rx[4..8], a) && Spells(rx[8..12], n)
    ensures h == DecodeHeader(rx[..HEADER_SIZE]) && h.address == a && h.size == n && h.pType == FromLE32(rx[..4])
    ensures h.crc32 == FromLE32(rx[12..16]) && h.flags == FromLE32(rx[16..20])
  {
    h := DecodeHeader(rx[..HEADER_SIZE]);
    var s := rx[..HEADER_SIZE];
    assert s[..4] == rx[..4] && s[4..8] == rx[4..8] && s[8..12] == rx[8..12];
    assert s[12..16] == rx[12..16] && s[16..20] == rx[16..20];
    SpelledNumber(rx[4..8], a);
    SpelledNumber(rx[8..12], n);
  }

  lemma FlagRead(s: seq<byte>)
    requires |s| == 4
    ensures FromLE32(s) & BPF_NOWD != 0 <==> s[0] & 1 != 0
    ensures FromLE32(s) & BPF_BEEF != 0 <==> s[0] & 2 != 0
  {
  }

  /** A LOAD or ZERO one end of which lies in the program or its stack page: refused, and none of its data is read. */
  lemma RefusedReply(area: Area, mem: Memory, rx: seq<byte>, arrivals: seq<nat>, a: u32, n: u32)
    requires 4096 <= area.runAddr < area.runEnd && EndInside(area, a, n)
    requires |rx| >= 20 && Spells(rx[4..8], a) && Spells(rx[8..12], n)
    requires rx[..4] == [0x4c, 0x4f, 0x41, 0x44] || rx[..4] == [0x5a, 0x45, 0x52, 0x4f]
    ensures OneTurn(area, mem, rx, arrivals) == More(mem, [0x45, 0x52, 0x52, 0x0a, 2, 0, 0, 0], rx[20..], arrivals)
  {
    var h := HeaderSpelled(rx, a, n);
    TypeOf(rx[..4]);
    ReplyCodes();
    EndsRefused(area, a, n);
    assert rx[20..][0..] == rx[20..];
  }

  lemma LoadTurn(area: Area, mem: Memory, rx: seq<byte>, arrivals: seq<nat>, h: Header, d: seq<byte>, q: seq<byte>)
    requires |rx| >= 20 && h == DecodeHeader(rx[..HEADER_SIZE]) && h.pType == BPT_LOAD
    requires Accepts(area, h.address, h.size) && rx[20..] == d + q && |d| == h.size
    ensures OneTurn(area, mem, rx, arrivals)
         == More(Write(mem, h.address, d), EncodeResponse(Verdict(h, d)), q, arrivals)
  {
    assert (d + q)[..|d|] == d && (d + q)[|d|..] == q;
  }

  lemma VerdictBytes(h: Header, d: seq<byte>, s: seq<byte>)
    requires |s| == 4 && h.crc32 == FromLE32(s)
    ensures EncodeResponse(Verdict(h, d))
         == if Holds(s, Crc32.Crc(0, d)) then [0x41, 0x43, 0x4b, 0x0a, 0, 0, 0, 0]
            else [0x45, 0x52, 0x52, 0x0a, 1, 0, 0, 0]
  {
    ReplyCodes();
    HeldWord(s, Crc32.Crc(0, d));
  }

  /** Any other LOAD that is complete: stored, and acknowledged if its bytes have the checksum on the line. */
  lemma LoadReply(area: Area, mem: Memory, rx: seq<byte>, arrivals: seq<nat>, a: u32, n: u32)
    requires 4096 <= area.runAddr < area.runEnd && !EndInside(area, a, n)
    requires |rx| >= 20 + n && Spells(rx[4..8], a) && Spells(rx[8..12], n)
    requires rx[..4] == [0x4c, 0x4f, 0x41, 0x44]
    ensures var d := rx[20..20 + n];
      OneTurn(area, mem, rx, arrivals) ==
        More(Write(mem, a, d),
             if Holds(rx[12..16], Crc32.Crc(0, d)) then [0x41, 0x43, 0x4b, 0x0a, 0, 0, 0, 0]
             else [0x45, 0x52, 0x52, 0x0a, 1, 0, 0, 0],
             rx[20 + n..], arrivals)
  {
    var h := HeaderSpelled(rx, a, n);
    var d, q := rx[20..20 + n], rx[20 + n..];
    TypeOf(rx[..4]);
    EndsRefused(area, a, n);
    assert rx[20..] == d + q;
    LoadTurn(area, mem, rx, arrivals, h, d, q);
    VerdictBytes(h, d, rx[12..16]);
  }

  /** A LOAD whose data stops short: what there is of it is stored, nothing is answered, and the Pi waits for more. */
  lemma LoadWaits(area: Area, mem: Memory, rx: seq<byte>, arrivals: seq<nat>, a: u32, n: u32)
    requires 4096 <= area.runAddr < area.runEnd && !EndInside(area, a, n)
    requires 20 <= |rx| < 20 + n && Spells(rx[4..8], a) && Spells(rx[8..12], n)
    requires rx[..4] == [0x4c, 0x4f, 0x41, 0x44]
    ensures OneTurn(area, mem, rx, arrivals) ==
      Last(Service(Write(mem, a, rx[20..]), [], InData(DecodeHeader(rx[..20]), |rx| - 20)))
  {
    var h := HeaderSpelled(rx, a, n);
    TypeOf(rx[..4]);
    EndsRefused(area, a, n);
  }

  /** Any other ZERO: filled as the second bit of the flags says, and acknowledged. */
  lemma ZeroReply(area: Area, mem: Memory, rx: seq<byte>, arrivals: seq<nat>, a: u32, n: u32)
    requires 4096 <= area.runAddr < area.runEnd && !EndInside(area, a, n)
    requires |rx| >= 20 && Spells(rx[4..8], a) && Spells(rx[8..12], n)
    requires rx[..4] == [0x5a, 0x45, 0x52, 0x4f]
    ensures OneTurn(area, mem, rx, arrivals) ==
      More(Write(mem, a, Fill(if rx[16] & 2 != 0 then 0xDEADBEEF else 0, n)),
           [0x41, 0x43, 0x4b, 0x0a, 0, 0, 0, 0], rx[20..], arrivals)
  {
    var h := HeaderSpelled(rx, a, n);
    TypeOf(rx[..4]);
    ReplyCodes();
    EndsRefused(area, a, n);
    FlagRead(rx[16..20]);
    assert rx[20..][0..] == rx[20..];
  }

  /** PING and REBOOT: answered, and nothing else happens. */
  lemma PlainReply(area: Area, mem: Memory, rx: seq<byte>, arrivals: seq<nat>)
    requires |rx| >= 20 && (rx[..4] == [0x50, 0x49, 0x4e, 0x47] || rx[..4] == [0x58, 0x98, 0x93, 0x48])
    ensures OneTurn(area, mem, rx, arrivals) ==
      More(mem,
           if rx[0] == 0x50 then [0x52, 0x44, 0x59, 0x0a, 0, 0, 0, 0] else [0x41, 0x43, 0x4b, 0x0a, 0, 0, 0, 0],
           rx[20..], arrivals)
  {
    assert rx[..HEADER_SIZE][..4] == rx[..4];
    TypeOf(rx[..4]);
    ReplyCodes();
    assert rx[20..][0..] == rx[20..];
  }

  /** EXEC: acknowledged, and the program is started, with the watchdog unless the first bit of the flags is set. */
  lemma ExecReply(area: Area, mem: Memory, rx: seq<byte>, arrivals: seq<nat>, a: u32, n: u32)
    requires |rx| >= 20 && Spells(rx[4..8], a) && Spells(rx[8..12], n) && rx[..4] == [0x45, 0x58, 0x45, 0x43]
    ensures OneTurn(area, mem, rx, arrivals) ==
      Last(Service(mem, [0x41, 0x43, 0x4b, 0x0a, 0, 0, 0, 0], Started(a, rx[16] & 1 == 0)))
  {
    var h := HeaderSpelled(rx, a, n);
    TypeOf(rx[..4]);
    ReplyCodes();
    FlagRead(rx[16..20]);
  }

  /** Any other type: named in an error, and what has arrived behind it is thrown away. */
  lemma UnknownReply(area: Area, mem: Memory, rx: seq<byte>, arrivals: seq<nat>)
    requires |rx| >= 20 && arrivals != [] && arrivals[0] <= |rx| - 20
    requires rx[..4] != [0x50, 0x49, 0x4e, 0x47] && rx[..4] != [0x4c, 0x4f, 0x41, 0x44]
    requires rx[..4] != [0x5a, 0x45, 0x52, 0x4f] && rx[..4] != [0x45, 0x58, 0x45, 0x43]
    requires rx[..4] != [0x58, 0x98, 0x93, 0x48]
    ensures OneTurn(area, mem, rx, arrivals) ==
      More(mem, [0x45, 0x52, 0x52, 0x0a] + rx[..4], rx[20 + arrivals[0]..], arrivals[1..])
  {
    assert rx[..HEADER_SIZE][..4] == rx[..4];
    TypeOf(rx[..4]);
    ErrorCode(rx[..4]);
    assert rx[20..][arrivals[0]..] == rx[20 + arrivals[0]..];
  }

  // ---------- What the client makes of an answer ----------

  /** Only the first four bytes decide: RDY for a PING, ACK for everything else. */
  lemma ClientDecides(r: Request, rx: seq<byte>)
    ensures |rx| < 8 ==> Exchange(r, rx) == Exchanged([r], false, [])
    ensures |rx| >= 8 ==>
      Exchange(r, rx) ==
        Exchanged([r], rx[..4] == if r.Ping? then [0x52, 0x44, 0x59, 0x0a] else [0x41, 0x43, 0x4b, 0x0a], rx[8..])
  {
    if |rx| >= 8 {
      HopedDecoded(r, rx[..8]);
      assert rx[..8][..4] == rx[..4];
      AnswerCodes();
      CodeRead(rx[..4], LE32(Expected(r).code), Expected(r).code);
    }
  }

  lemma AnswerCodes()
    ensures LE32(BPR_RDY) == [0x52, 0x44, 0x59, 0x0a] && LE32(BPR_ACK) == [0x41, 0x43, 0x4b, 0x0a]
  {
  }
}
