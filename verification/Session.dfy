/**
 The PC and the Pi as two processes that exchange bytes over two channels, one byte or one handler at a
 time, in any order (client/bootproto.c, raspi/bootrpi.c, raspi/minilibc.c).
 */
module Session {
  import opened Wrappers
  import opened Bytes
  import opened Memory
  import opened Protocol

  /** The client: requests done, bytes written of the current one, bytes read of its answer. */
  datatype ClientState = ClientState(done: nat, sent: nat, got: seq<byte>, error: Option<Response>)

  datatype Next = Loop | Run(address: u32, watchdog: bool)

  /** The Pi: reading a header, about to handle it, reading data, writing a response, or gone. */
  datatype Phase =
    | Reading(got: seq<byte>)
    | Handling(hdr: Header)
    | Receiving(hdr: Header, received: nat)
    | Replying(out: seq<byte>, next: Next)
    | Running(address: u32, watchdog: bool)

  datatype System = System(client: ClientState, phase: Phase, mem: Memory, toPi: seq<byte>, toPc: seq<byte>)

  /** A request as it arrives: its frame, and what the frame is made of. */
  datatype Packet = Packet(frame: seq<byte>, hdr: Header, data: seq<byte>)

  function PacketOf(r: Request, data: seq<byte>): Packet
    requires Sendable(r)
  {
    Packet(EncodeHeader(HeaderOf(r)) + data, HeaderOf(r), data)
  }

  /** p is what the line makes of the request r: its header is whole, its data may have been damaged. */
  predicate Arrives(r: Request, p: Packet) {
    Sendable(r) && |p.data| == |PayloadOf(r)| && p == PacketOf(r, p.data)
  }

  /**
   The fixed part of a session: where the bootloader is, what is asked of it, how each request arrives,
   and the memory at the start.
   */
  datatype Config = Config(area: Area, script: seq<Request>, packets: seq<Packet>, mem: Memory)

  predicate WellFormed(c: Config) {
    |c.packets| == |c.script| &&
    forall j {:trigger Arrives(c.script[j], c.packets[j])} | 0 <= j < |c.script| :: Arrives(c.script[j], c.packets[j])
  }

  const RESTART := ClientState(0, 0, [], None)

  function Init(c: Config): System {
    System(RESTART, Reading([]), c.mem, [], [])
  }

  // ---------- The steps of the client ----------

  function Wrote(frame: seq<byte>, s: System): System
    requires s.client.sent < |frame|
  {
    s.(client := s.client.(sent := s.client.sent + 1), toPi := s.toPi + [frame[s.client.sent]])
  }

  /** The client looks at the code only. */
  predicate Passes(r: Request, p: Response) {
    p.code == Expected(r).code
  }

  function Checked(r: Request, c: ClientState): ClientState {
    if |c.got| < RESPONSE_SIZE then c
    else
      var p := DecodeResponse(c.got[..RESPONSE_SIZE]);
      if Passes(r, p) then ClientState(c.done + 1, 0, [], None) else c.(error := Some(p))
  }

  function ReadByte(r: Request, s: System): System
    requires s.toPc != []
  {
    s.(client := Checked(r, s.client.(got := s.client.got + [s.toPc[0]])), toPc := s.toPc[1..])
  }

  // ---------- The steps of the Pi ----------

  function Reply(p: Response, next: Next): Phase {
    Replying(EncodeResponse(p), next)
  }

  predicate WantsByte(phase: Phase) {
    phase.Reading? || (phase.Receiving? && phase.received < phase.hdr.size)
  }

  /** One byte read by kread into the header. */
  function TookHeader(s: System): System
    requires s.phase.Reading? && s.toPi != []
  {
    var got := s.phase.got + [s.toPi[0]];
    s.(phase := if |got| == HEADER_SIZE then Handling(DecodeHeader(got)) else Reading(got), toPi := s.toPi[1..])
  }

  /** One byte read by kread straight into memory. */
  function TookData(s: System): System
    requires s.phase.Receiving? && s.toPi != []
  {
    s.(mem := s.mem[Moved(s.phase.hdr.address, s.phase.received) := s.toPi[0]],
       phase := Receiving(s.phase.hdr, s.phase.received + 1), toPi := s.toPi[1..])
  }

  function Took(s: System): System
    requires WantsByte(s.phase) && s.toPi != []
  {
    if s.phase.Reading? then TookHeader(s) else TookData(s)
  }

  predicate Ready(phase: Phase) {
    phase.Handling? || (phase.Receiving? && phase.received == phase.hdr.size)
  }

  /** The branch of the command loop for a header, or the check of the data it announced. */
  function Handled(area: Area, s: System): System
    requires Ready(s.phase)
  {
    var h := s.phase.hdr;
    if s.phase.Receiving? then
      s.(phase := Reply(Verdict(h, Read(s.mem, h.address, h.size)), Loop))
    else if h.pType == BPT_LOAD && Accepts(area, h.address, h.size) then
      s.(phase := Receiving(h, 0))
    else
      s.(mem := MemoryAfter(area, h, s.mem, []),
         phase := Reply(Answer(area, h, []), NextOf(h)),
         toPi := if IsKnown(h.pType) then s.toPi else [])
  }

  function NextOf(h: Header): Next {
    if h.pType == BPT_EXEC then Run(h.address, h.flags & BPF_NOWD == 0) else Loop
  }

  function AfterReply(next: Next): Phase {
    match next
    case Loop => Reading([])
    case Run(a, w) => Running(a, w)
  }

  function PutByte(s: System): System
    requires s.phase.Replying? && s.phase.out != []
  {
    var out := s.phase.out[1..];
    s.(toPc := s.toPc + [s.phase.out[0]],
       phase := if out == [] then AfterReply(s.phase.next) else Replying(out, s.phase.next))
  }

  // ---------- Schedules ----------

  datatype Action = ClientWrites | ClientReads | PiReads | PiHandles | PiWrites

  predicate Asks(c: Config, s: System) {
    s.client.error == None && s.client.done < |c.script|
  }

  predicate Enabled(c: Config, s: System, a: Action)
    requires WellFormed(c)
  {
    match a
    case ClientWrites => Asks(c, s) && s.client.sent < |c.packets[s.client.done].frame|
    case ClientReads => Asks(c, s) && s.client.sent == |c.packets[s.client.done].frame| && s.toPc != []
    case PiReads => WantsByte(s.phase) && s.toPi != []
    case PiHandles => Ready(s.phase)
    case PiWrites => s.phase.Replying? && s.phase.out != []
  }

  function Do(c: Config, s: System, a: Action): System
    requires WellFormed(c) && Enabled(c, s, a)
  {
    match a
    case ClientWrites => Wrote(c.packets[s.client.done].frame, s)
    case ClientReads => ReadByte(c.script[s.client.done], s)
    case PiReads => Took(s)
    case PiHandles => Handled(c.area, s)
    case PiWrites => PutByte(s)
  }

  /** A schedule picks one enabled step after the other. */
  predicate Valid(c: Config, s: System, acts: seq<Action>)
    requires WellFormed(c)
    decreases |acts|
  {
    acts == [] || (Enabled(c, s, acts[0]) && Valid(c, Do(c, s, acts[0]), acts[1..]))
  }

  function After(c: Config, s: System, acts: seq<Action>): System
    requires WellFormed(c) && Valid(c, s, acts)
    decreases |acts|
  {
    if acts == [] then s else After(c, Do(c, s, acts[0]), acts[1..])
  }

  predicate Stuck(c: Config, s: System)
    requires WellFormed(c)
  {
    forall a: Action :: !Enabled(c, s, a)
  }

  // ---------- What a schedule puts on the line ----------

  /** The bytes that the client writes. */
  function Sent(c: Config, s: System, acts: seq<Action>): seq<byte>
    requires WellFormed(c) && Valid(c, s, acts)
    decreases |acts|
  {
    if acts == [] then []
    else
      var rest := Sent(c, Do(c, s, acts[0]), acts[1..]);
      if acts[0] == ClientWrites then [c.packets[s.client.done].frame[s.client.sent]] + rest else rest
  }

  /** The bytes that the Pi writes. */
  function Emitted(c: Config, s: System, acts: seq<Action>): seq<byte>
    requires WellFormed(c) && Valid(c, s, acts)
    decreases |acts|
  {
    if acts == [] then []
    else
      var rest := Emitted(c, Do(c, s, acts[0]), acts[1..]);
      if acts[0] == PiWrites then [s.phase.out[0]] + rest else rest
  }

  /** The Pi is about to throw away what has arrived. */
  predicate Drains(s: System, a: Action) {
    a == PiHandles && s.phase.Handling? && !IsKnown(s.phase.hdr.pType)
  }

  /** How many bytes it throws away each time. */
  function Drained(c: Config, s: System, acts: seq<Action>): seq<nat>
    requires WellFormed(c) && Valid(c, s, acts)
    decreases |acts|
  {
    if acts == [] then []
    else
      var rest := Drained(c, Do(c, s, acts[0]), acts[1..]);
      if Drains(s, acts[0]) then [|s.toPi|] + rest else rest
  }

  /** The delay before the line is drained is long enough for the client to write what it has to write. */
  predicate Timely(c: Config, s: System, acts: seq<Action>)
    requires WellFormed(c) && Valid(c, s, acts)
    decreases |acts|
  {
    acts == [] ||
    ((Drains(s, acts[0]) ==> !Enabled(c, s, ClientWrites)) && Timely(c, Do(c, s, acts[0]), acts[1..]))
  }
}
