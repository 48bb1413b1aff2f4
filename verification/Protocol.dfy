/** The packets of the boot protocol (common/bootproto.h) and what each one asks of the Pi. */
module Protocol {
  import opened Bytes
  import opened Memory
  import Crc32

  // ---------- Layouts ----------

  const BPT_PING: bv32 := 0x474e4950
  const BPT_LOAD: bv32 := 0x44414f4c
  const BPT_ZERO: bv32 := 0x4f52455a
  const BPT_EXEC: bv32 := 0x43455845
  const BPT_REBOOT: bv32 := 0x48939858

  const BPF_NOWD: bv32 := 0x00000001
  const BPF_BEEF: bv32 := 0x00000002

  const BPR_RDY: bv32 := 0x0a594452
  const BPR_ACK: bv32 := 0x0a4b4341
  const BPR_ERR: bv32 := 0x0a525245

  const BPE_CRC: bv32 := 0x00000001
  const BPE_OVR: bv32 := 0x00000002

  /** The packet sent from the PC to the Pi, 20 bytes on the wire. */
  datatype Header = Header(pType: bv32, address: u32, size: u32, crc32: bv32, flags: bv32)

  const HEADER_SIZE := 20

  function EncodeHeader(h: Header): (s: seq<byte>)
    ensures |s| == HEADER_SIZE
  {
    LE32(h.pType) + LENum(h.address) + LENum(h.size) + LE32(h.crc32) + LE32(h.flags)
  }

  function DecodeHeader(s: seq<byte>): Header
    requires |s| == HEADER_SIZE
  {
    Header(FromLE32(s[..4]), FromLENum(s[4..8]), FromLENum(s[8..12]), FromLE32(s[12..16]), FromLE32(s[16..20]))
  }

  lemma HeaderRoundTrip(h: Header)
    ensures DecodeHeader(EncodeHeader(h)) == h
  {
    var s := EncodeHeader(h);
    assert s[..4] == LE32(h.pType) && s[4..8] == LENum(h.address) && s[8..12] == LENum(h.size);
    assert s[12..16] == LE32(h.crc32) && s[16..20] == LE32(h.flags);
    LE32RoundTrip(h.pType);
    LENumRoundTrip(h.address);
    LENumRoundTrip(h.size);
    LE32RoundTrip(h.crc32);
    LE32RoundTrip(h.flags);
  }

  lemma FieldsJoined(a: seq<byte>, b: seq<byte>, c: seq<byte>, d: seq<byte>, e: seq<byte>)
    requires |a| == |b| == |c| == |d| == |e| == 4
    ensures EncodeHeader(Header(FromLE32(a), FromLENum(b), FromLENum(c), FromLE32(d), FromLE32(e))) == a + b + c + d + e
  {
    FromLE32RoundTrip(a);
    FromLENumRoundTrip(b);
    FromLENumRoundTrip(c);
    FromLE32RoundTrip(d);
    FromLE32RoundTrip(e);
  }

  lemma FivePieces(s: seq<byte>)
    requires |s| == HEADER_SIZE
    ensures s == s[..4] + s[4..8] + s[8..12] + s[12..16] + s[16..20]
  {
  }

  /** Any 20 bytes are those of the header that is read from them. */
  lemma HeaderBytes(s: seq<byte>)
    requires |s| == HEADER_SIZE
    ensures EncodeHeader(DecodeHeader(s)) == s
  {
    FieldsJoined(s[..4], s[4..8], s[8..12], s[12..16], s[16..20]);
    FivePieces(s);
  }

  /** The packet sent from the Pi to the PC, 8 bytes on the wire. */
  datatype Response = Response(code: bv32, data: bv32)

  const RESPONSE_SIZE := 8

  function EncodeResponse(r: Response): (s: seq<byte>)
    ensures |s| == RESPONSE_SIZE
  {
    LE32(r.code) + LE32(r.data)
  }

  function DecodeResponse(s: seq<byte>): Response
    requires |s| == RESPONSE_SIZE
  {
    Response(FromLE32(s[..4]), FromLE32(s[4..8]))
  }

  lemma ResponseRoundTrip(r: Response)
    ensures DecodeResponse(EncodeResponse(r)) == r
  {
    var s := EncodeResponse(r);
    assert s[..4] == LE32(r.code) && s[4..8] == LE32(r.data);
    LE32RoundTrip(r.code);
    LE32RoundTrip(r.data);
  }

  lemma ResponseBytes(s: seq<byte>)
    requires |s| == RESPONSE_SIZE
    ensures EncodeResponse(DecodeResponse(s)) == s
  {
    FromLE32RoundTrip(s[..4]);
    FromLE32RoundTrip(s[4..8]);
    assert s == s[..4] + s[4..8];
  }

  // ---------- The bootloader's own memory ----------

  /** Where the bootloader runs, as the linker places it. */
  datatype Area = Area(runAddr: u32, runEnd: u32) {
    /** The code, and one page below it for the stack. */
    function Start(): u32 {
      (runAddr - 4096) % SPACE
    }
  }

  /** The target check: only the two end points of the range are looked at, in 32-bit arithmetic. */
  predicate Accepts(area: Area, addr: u32, size: u32) {
    var addrE := (addr + size) % SPACE;
    !(area.Start() <= addr < area.runEnd) && !(area.Start() <= addrE < area.runEnd)
  }

  // ---------- What the Pi does with a packet ----------

  /** How many bytes of data the Pi reads after a header. */
  function PayloadSize(area: Area, h: Header): nat {
    if h.pType == BPT_LOAD && Accepts(area, h.address, h.size) then h.size else 0
  }

  function FillPattern(beef: bool): bv32 {
    if beef then 0xDEADBEEF else 0
  }

  /** Memory after a packet has been handled. */
  function MemoryAfter(area: Area, h: Header, mem: Memory, payload: seq<byte>): Memory {
    if h.pType == BPT_LOAD && Accepts(area, h.address, h.size) then Write(mem, h.address, payload)
    else if h.pType == BPT_ZERO && Accepts(area, h.address, h.size) then
      Write(mem, h.address, Fill(FillPattern(h.flags & BPF_BEEF != 0), h.size))
    else mem
  }

  /** The verdict on data read back from memory. */
  function Verdict(h: Header, data: seq<byte>): Response {
    if Crc32.Crc(0, data) == h.crc32 then Response(BPR_ACK, 0) else Response(BPR_ERR, BPE_CRC)
  }

  function Answer(area: Area, h: Header, payload: seq<byte>): Response {
    if h.pType == BPT_PING then Response(BPR_RDY, 0)
    else if h.pType == BPT_LOAD then
      if Accepts(area, h.address, h.size) then Verdict(h, payload) else Response(BPR_ERR, BPE_OVR)
    else if h.pType == BPT_ZERO then
      if Accepts(area, h.address, h.size) then Response(BPR_ACK, 0) else Response(BPR_ERR, BPE_OVR)
    else if h.pType == BPT_EXEC || h.pType == BPT_REBOOT then Response(BPR_ACK, 0)
    else Response(BPR_ERR, h.pType)
  }

  predicate IsKnown(pType: bv32) {
    pType in {BPT_PING, BPT_LOAD, BPT_ZERO, BPT_EXEC, BPT_REBOOT}
  }

  // ---------- What the client asks for ----------

  datatype Request =
    | Ping
    | Load(address: u32, data: seq<byte>)
    | Zero(address: u32, size: u32, beef: bool)
    | Exec(address: u32, noWatchdog: bool)
    | Reboot

  /** The Pi counts the data of a LOAD in a signed 32-bit integer. */
  predicate Sendable(r: Request) {
    r.Load? ==> |r.data| < 0x8000_0000
  }

  function HeaderOf(r: Request): Header
    requires Sendable(r)
  {
    match r
    case Ping => Header(BPT_PING, 0, 0, 0, 0)
    case Load(a, d) => Header(BPT_LOAD, a, |d|, Crc32.Crc(0, d), 0)
    case Zero(a, n, beef) => Header(BPT_ZERO, a, n, 0, if beef then BPF_BEEF else 0)
    case Exec(a, noWatchdog) => Header(BPT_EXEC, a, 0, 0, if noWatchdog then BPF_NOWD else 0)
    case Reboot => Header(BPT_REBOOT, 0, 0, 0, 0)
  }

  function PayloadOf(r: Request): seq<byte> {
    if r.Load? then r.data else []
  }

  /** Everything the client writes for one request. */
  function Frame(r: Request): (s: seq<byte>)
    requires Sendable(r)
    ensures |s| == HEADER_SIZE + |PayloadOf(r)|
  {
    EncodeHeader(HeaderOf(r)) + PayloadOf(r)
  }

  predicate AllSendable(script: seq<Request>) {
    forall j | 0 <= j < |script| :: Sendable(script[j])
  }

  /** The bytes of a list of requests. */
  function Frames(script: seq<Request>): seq<byte>
    requires AllSendable(script)
  {
    if script == [] then [] else Frames(script[..|script| - 1]) + Frame(script[|script| - 1])
  }

  /** How many bytes that is. */
  function LineBytes(script: seq<Request>): nat {
    if script == [] then 0
    else LineBytes(script[..|script| - 1]) + HEADER_SIZE + |PayloadOf(script[|script| - 1])|
  }

  lemma {:induction false} FramesLength(script: seq<Request>)
    requires AllSendable(script)
    ensures |Frames(script)| == LineBytes(script)
  {
    if script != [] { FramesLength(script[..|script| - 1]); }
  }

  lemma FramesSnoc(script: seq<Request>, r: Request)
    requires AllSendable(script) && Sendable(r)
    ensures AllSendable(script + [r]) && Frames(script + [r]) == Frames(script) + Frame(r)
  {
    assert (script + [r])[..|script|] == script;
  }

  lemma FramesNext(script: seq<Request>, k: nat)
    requires AllSendable(script) && 0 < k <= |script|
    ensures Frames(script[..k]) == Frames(script[..k - 1]) + Frame(script[k - 1])
  {
    assert script[..k][..k - 1] == script[..k - 1];
  }

  /** The target range passes the Pi's check. */
  predicate InRange(area: Area, r: Request) {
    match r
    case Load(a, d) => |d| < SPACE && Accepts(area, a, |d|)
    case Zero(a, n, _) => Accepts(area, a, n)
    case _ => true
  }

  /** What a request is for: its effect on memory. */
  function Effect(r: Request, mem: Memory): Memory {
    match r
    case Load(a, d) => Write(mem, a, d)
    case Zero(a, n, beef) => Write(mem, a, Fill(FillPattern(beef), n))
    case _ => mem
  }

  /** The effect of a list of requests, one after the other. */
  function EffectAll(script: seq<Request>, mem: Memory): Memory {
    if script == [] then mem
    else var k := |script| - 1; Effect(script[k], EffectAll(script[..k], mem))
  }

  lemma {:induction false} EffectConcat(a: seq<Request>, b: seq<Request>, mem: Memory)
    ensures EffectAll(a + b, mem) == EffectAll(b, EffectAll(a, mem))
    decreases |b|
  {
    if b == [] {
      assert a + b == a;
    } else {
      var k := |b| - 1;
      EffectConcat(a, b[..k], mem);
      assert (a + b)[..|a| + k] == a + b[..k];
    }
  }

  lemma EffectOne(r: Request, mem: Memory)
    ensures EffectAll([r], mem) == Effect(r, mem)
  {
    assert [r][..0] == [];
  }

  lemma EffectTwo(r: Request, q: Request, mem: Memory)
    ensures EffectAll([r, q], mem) == Effect(q, Effect(r, mem))
  {
    assert [r, q][..1] == [r];
    EffectOne(r, mem);
  }

  lemma EffectLast(script: seq<Request>, k: nat, mem: Memory)
    requires 0 < k <= |script|
    ensures EffectAll(script[..k], mem) == Effect(script[k - 1], EffectAll(script[..k - 1], mem))
  {
    assert script[..k][..k - 1] == script[..k - 1];
  }

  /** The answer that lets the client go on. */
  function Expected(r: Request): Response {
    if r.Ping? then Response(BPR_RDY, 0) else Response(BPR_ACK, 0)
  }

  /** The Pi does what is asked, or refuses it for its range and does nothing. */
  lemma RequestAnswered(area: Area, r: Request, mem: Memory)
    requires Sendable(r)
    ensures var h := HeaderOf(r);
      if InRange(area, r) then
        PayloadSize(area, h) == |PayloadOf(r)| &&
        MemoryAfter(area, h, mem, PayloadOf(r)) == Effect(r, mem) &&
        Answer(area, h, PayloadOf(r)) == Expected(r)
      else
        PayloadSize(area, h) == 0 &&
        MemoryAfter(area, h, mem, []) == mem &&
        Answer(area, h, []) == Response(BPR_ERR, BPE_OVR)
  {
  }
}
