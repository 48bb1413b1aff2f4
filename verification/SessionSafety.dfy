/** What every step of a session keeps: one request at a time, in step with the Pi. */
module SessionSafety {
  import opened Wrappers
  import opened Bytes
  import opened Memory
  import opened Protocol
  import opened Session

  // ---------- One packet ----------

  /** How much of the current frame the Pi has taken. */
  function Consumed(p: Phase): nat {
    match p
    case Reading(got) => |got|
    case Receiving(_, n) => HEADER_SIZE + n
    case _ => HEADER_SIZE
  }

  function FrameByte(f: seq<byte>, i: nat): byte
    requires HEADER_SIZE + i < |f|
  {
    f[HEADER_SIZE + i]
  }

  /** The header tells what the frame holds. */
  ghost predicate Coherent(p: Packet) {
    |p.frame| == HEADER_SIZE + |p.data| && (forall i | 0 <= i < |p.data| :: FrameByte(p.frame, i) == p.data[i]) &&
    (forall s | |s| == HEADER_SIZE && s == p.frame[..HEADER_SIZE] :: DecodeHeader(s) == p.hdr) &&
    |p.data| == (if p.hdr.pType == BPT_LOAD then p.hdr.size else 0) && IsKnown(p.hdr.pType)
  }

  ghost predicate AskingPhase(area: Area, p: Packet, m: Memory, phase: Phase, mem: Memory)
    requires Coherent(p)
  {
    match phase
    case Reading(got) => |got| < HEADER_SIZE && got == p.frame[..|got|] && mem == m
    case Handling(h) => h == p.hdr && mem == m
    case Receiving(h, n) =>
      h == p.hdr && h.pType == BPT_LOAD && Accepts(area, h.address, h.size) &&
      n <= |p.data| && mem == Write(m, h.address, p.data[..n])
    case _ => false
  }

  /** The packet is on its way: the channel holds what is written of its frame and not yet taken. */
  ghost predicate Asking(area: Area, p: Packet, m: Memory, s: System) {
    Coherent(p) && AskingPhase(area, p, m, s.phase, s.mem) &&
    s.client.got == [] && s.toPc == [] &&
    InFlight(p.frame, Consumed(s.phase), s.client.sent, s.toPi)
  }

  function Pending(p: Phase): seq<byte> {
    if p.Replying? then p.out else []
  }

  /** What the client has read of an answer, what is on its way, and what the Pi has still to write. */
  function Answers(s: System): seq<byte> {
    s.client.got + s.toPc + Pending(s.phase)
  }

  /** The Pi takes all of the packet, if only to refuse it: just the data of a refused LOAD is left behind. */
  ghost predicate Fits(area: Area, h: Header) {
    h.pType == BPT_LOAD && h.size > 0 ==> Accepts(area, h.address, h.size)
  }

  /** The range of the packet, if it has one, is accepted. */
  ghost predicate Permitted(area: Area, h: Header) {
    h.pType == BPT_LOAD || h.pType == BPT_ZERO ==> Accepts(area, h.address, h.size)
  }

  /** The packet has been handled: its one response is on its way. */
  ghost predicate Answered(area: Area, p: Packet, m: Memory, s: System) {
    Fits(area, p.hdr) && s.mem == MemoryAfter(area, p.hdr, m, p.data) &&
    s.client.sent == |p.frame| && s.toPi == [] &&
    |s.client.got| < RESPONSE_SIZE && Answers(s) == EncodeResponse(Answer(area, p.hdr, p.data)) &&
    if s.phase.Replying? then s.phase.out != [] && s.phase.next == NextOf(p.hdr)
    else s.phase == AfterReply(NextOf(p.hdr))
  }

  const OVERWRITE := Response(BPR_ERR, BPE_OVR)

  /** A LOAD with data has been refused; the Pi may take its data for packets, but the client reads this first. */
  ghost predicate Refused(area: Area, p: Packet, s: System) {
    !Fits(area, p.hdr) && s.client.sent <= |p.frame| &&
    |s.client.got| < RESPONSE_SIZE <= |Answers(s)| && Answers(s)[..RESPONSE_SIZE] == EncodeResponse(OVERWRITE)
  }

  ghost predicate Current(area: Area, p: Packet, m: Memory, s: System) {
    Asking(area, p, m, s) || Answered(area, p, m, s) || Refused(area, p, s)
  }

  lemma CoherentOf(p: Packet, head: seq<byte>)
    requires |head| == HEADER_SIZE && DecodeHeader(head) == p.hdr && p.frame == head + p.data && IsKnown(p.hdr.pType)
    requires |p.data| == if p.hdr.pType == BPT_LOAD then p.hdr.size else 0
    ensures Coherent(p)
  {
    assert p.frame[..HEADER_SIZE] == head;
    forall i | 0 <= i < |p.data| ensures FrameByte(p.frame, i) == p.data[i] { }
  }

  lemma PacketCoherent(r: Request, data: seq<byte>)
    requires Sendable(r) && |data| == |PayloadOf(r)|
    ensures Coherent(PacketOf(r, data))
  {
    HeaderRoundTrip(HeaderOf(r));
    CoherentOf(PacketOf(r, data), EncodeHeader(HeaderOf(r)));
  }

  // ---------- While a packet is on its way ----------

  ghost predicate InFlight(f: seq<byte>, n: nat, k: nat, q: seq<byte>) {
    n <= k <= |f| && q == f[n..k]
  }

  lemma Pushed(f: seq<byte>, n: nat, k: nat, q: seq<byte>)
    requires InFlight(f, n, k, q) && k < |f|
    ensures InFlight(f, n, k + 1, q + [f[k]])
  {
  }

  lemma Popped(f: seq<byte>, n: nat, k: nat, q: seq<byte>)
    requires InFlight(f, n, k, q) && q != []
    ensures n < |f| && q[0] == f[n] && InFlight(f, n + 1, k, q[1..])
  {
  }

  lemma AskingWrote(area: Area, p: Packet, m: Memory, s: System)
    requires Asking(area, p, m, s) && s.client.sent < |p.frame|
    ensures Asking(area, p, m, Wrote(p.frame, s))
  {
    Pushed(p.frame, Consumed(s.phase), s.client.sent, s.toPi);
  }

  lemma AskingTookHeader(area: Area, p: Packet, m: Memory, s: System)
    requires Asking(area, p, m, s) && s.phase.Reading? && s.toPi != []
    ensures Asking(area, p, m, TookHeader(s))
  {
    Popped(p.frame, |s.phase.got|, s.client.sent, s.toPi);
    Longer(p.frame, |s.phase.got|, s.phase.got);
  }

  lemma AskingTookData(area: Area, p: Packet, m: Memory, s: System)
    requires Asking(area, p, m, s) && s.phase.Receiving? && s.toPi != []
    requires s.phase.received < |p.data|
    ensures Asking(area, p, m, TookData(s))
  {
    var h, k := s.phase.hdr, s.phase.received;
    Popped(p.frame, HEADER_SIZE + k, s.client.sent, s.toPi);
    assert FrameByte(p.frame, k) == p.data[k];
    DataStored(m, h.address, p.data, k, s.mem, Moved(h.address, k), s.toPi[0]);
  }

  lemma DataStored(m: Memory, a: u32, d: seq<byte>, k: nat, mem: Memory, x: u32, b: byte)
    requires k < |d| && mem == Write(m, a, d[..k]) && x == Moved(a, k) && b == d[k] && k < SPACE
    ensures mem[x := b] == Write(m, a, d[..k + 1])
  {
    Longer(d, k, d[..k]);
    WriteByte(m, a, d[..k], d[k]);
  }

  lemma Longer(f: seq<byte>, k: nat, q: seq<byte>)
    requires k < |f| && q == f[..k]
    ensures q + [f[k]] == f[..k + 1]
  {
  }

  lemma AskingReceived(area: Area, p: Packet, m: Memory, s: System)
    requires Asking(area, p, m, s) && s.phase.Receiving? && s.phase.received == s.phase.hdr.size
    ensures Answered(area, p, m, Handled(area, s))
  {
    assert p.data[..|p.data|] == p.data;
    ReadWritten(m, p.hdr.address, p.data);
  }

  lemma AskingAccepted(area: Area, p: Packet, m: Memory, s: System)
    requires Asking(area, p, m, s) && s.phase.Handling? && p.hdr.pType == BPT_LOAD
    requires Accepts(area, p.hdr.address, p.hdr.size)
    ensures Asking(area, p, m, Handled(area, s))
  {
    WriteNothing(m, p.hdr.address);
  }

  /** Anything but the data of an accepted LOAD: the header is all there is, or all that is looked at. */
  lemma AskingDecided(area: Area, p: Packet, m: Memory, s: System)
    requires Asking(area, p, m, s) && s.phase.Handling?
    requires p.hdr.pType == BPT_LOAD ==> !Accepts(area, p.hdr.address, p.hdr.size)
    ensures Answered(area, p, m, Handled(area, s)) || Refused(area, p, Handled(area, s))
  {
    if p.data == [] {
      assert Answered(area, p, m, Handled(area, s));
    }
  }

  lemma AskingHandled(area: Area, p: Packet, m: Memory, s: System)
    requires Asking(area, p, m, s) && Ready(s.phase)
    ensures Current(area, p, m, Handled(area, s))
  {
    if s.phase.Receiving? {
      AskingReceived(area, p, m, s);
    } else if p.hdr.pType == BPT_LOAD && Accepts(area, p.hdr.address, p.hdr.size) {
      AskingAccepted(area, p, m, s);
    } else {
      AskingDecided(area, p, m, s);
    }
  }

  // ---------- While an answer is on its way ----------

  lemma PutKeepsAnswers(s: System)
    requires s.phase.Replying? && s.phase.out != []
    ensures Answers(PutByte(s)) == Answers(s)
  {
    var out := s.phase.out;
    assert out == [out[0]] + out[1..];
  }

  lemma AnsweredPut(area: Area, p: Packet, m: Memory, s: System)
    requires Answered(area, p, m, s) && s.phase.Replying?
    ensures Answered(area, p, m, PutByte(s))
  {
    PutKeepsAnswers(s);
  }

  /** One byte of the answer read, before the client looks at it. */
  lemma GetKeepsAnswers(s: System)
    requires s.toPc != []
    ensures Answers(s) == s.client.got + [s.toPc[0]] + s.toPc[1..] + Pending(s.phase)
  {
    assert s.toPc == [s.toPc[0]] + s.toPc[1..];
  }

  lemma WholeAnswer(got: seq<byte>, rest: seq<byte>, p: Response)
    requires |got| == RESPONSE_SIZE <= |got + rest| && (got + rest)[..RESPONSE_SIZE] == EncodeResponse(p)
    ensures got == EncodeResponse(p) && DecodeResponse(got[..RESPONSE_SIZE]) == p
  {
    assert got == (got + rest)[..RESPONSE_SIZE] == got[..RESPONSE_SIZE];
    ResponseRoundTrip(p);
  }

  /** The answer p is the next to be read, whole. */
  ghost predicate Promised(p: Response, answers: seq<byte>) {
    RESPONSE_SIZE <= |answers| && answers[..RESPONSE_SIZE] == EncodeResponse(p)
  }

  /** Reading one byte of the answer p: more to come, or the whole of p. */
  lemma ReadPromised(r: Request, s: System, p: Response)
    requires s.toPc != [] && |s.client.got| < RESPONSE_SIZE && s.client.error == None
    requires Promised(p, Answers(s))
    ensures var s', got := ReadByte(r, s), s.client.got + [s.toPc[0]];
      if |got| < RESPONSE_SIZE then s'.client == s.client.(got := got) && Answers(s') == Answers(s)
      else
        got == EncodeResponse(p) &&
        s'.client == if Passes(r, p) then ClientState(s.client.done + 1, 0, [], None)
                     else s.client.(got := got, error := Some(p))
  {
    GetKeepsAnswers(s);
    var got := s.client.got + [s.toPc[0]];
    if |got| == RESPONSE_SIZE {
      assert got + (s.toPc[1..] + Pending(s.phase)) == Answers(s);
      WholeAnswer(got, s.toPc[1..] + Pending(s.phase), p);
    }
  }

  // ---------- The whole session ----------

  ghost function AnswerAt(c: Config, k: nat): Response
    requires WellFormed(c) && k < |c.script|
  {
    Answer(c.area, c.packets[k].hdr, c.packets[k].data)
  }

  ghost predicate PassesAt(c: Config, k: nat)
    requires WellFormed(c) && k < |c.script|
  {
    Passes(c.script[k], AnswerAt(c, k))
  }

  /** The first k requests were answered as hoped. */
  ghost predicate FirstPass(c: Config, k: nat)
    requires WellFormed(c) && k <= |c.script|
  {
    k == 0 || (FirstPass(c, k - 1) && PassesAt(c, k - 1))
  }

  /** Memory when the first k requests have been handled. */
  ghost function MemBefore(c: Config, k: nat): Memory
    requires WellFormed(c) && k <= |c.script|
  {
    if k == 0 then c.mem
    else MemoryAfter(c.area, c.packets[k - 1].hdr, MemBefore(c, k - 1), c.packets[k - 1].data)
  }

  ghost function EndPhase(c: Config, k: nat): Phase
    requires WellFormed(c) && k <= |c.script|
  {
    if k == 0 then Reading([]) else AfterReply(NextOf(c.packets[k - 1].hdr))
  }

  /** Between two requests: the first k are done, and nothing is on its way. */
  ghost function Between(c: Config, k: nat): System
    requires WellFormed(c) && k <= |c.script|
  {
    System(ClientState(k, 0, [], None), EndPhase(c, k), MemBefore(c, k), [], [])
  }

  /** The end of a session in which request k was carried out, but its answer was not the one hoped for. */
  ghost function Failed(c: Config, k: nat): System
    requires WellFormed(c) && k < |c.script|
  {
    var p := AnswerAt(c, k);
    System(ClientState(k, |c.packets[k].frame|, EncodeResponse(p), Some(p)), EndPhase(c, k + 1),
           MemBefore(c, k + 1), [], [])
  }

  /** The Pi does not come back from an EXEC. */
  ghost predicate ExecLast(script: seq<Request>) {
    forall j | 0 <= j < |script| - 1 :: !script[j].Exec?
  }

  ghost predicate Proper(c: Config) {
    WellFormed(c) && ExecLast(c.script)
  }

  /** What holds in every state: all requests before the current one were answered as hoped. */
  ghost predicate Inv(c: Config, s: System)
    requires Proper(c)
  {
    var k := s.client.done;
    k <= |c.script| && FirstPass(c, k) &&
    if k == |c.script| then s == Between(c, k)
    else if s.client.error == None then Current(c.area, c.packets[k], MemBefore(c, k), s)
    else
      !PassesAt(c, k) && s.client.error.value == AnswerAt(c, k) &&
      (Fits(c.area, c.packets[k].hdr) ==> s == Failed(c, k))
  }

  lemma RefusedStep(c: Config, p: Packet, s: System, a: Action)
    requires WellFormed(c) && s.client.done < |c.script| && p == c.packets[s.client.done]
    requires Enabled(c, s, a) && a != ClientReads && Refused(c.area, p, s)
    ensures Refused(c.area, p, Do(c, s, a)) && Do(c, s, a).client.(sent := 0) == s.client.(sent := 0)
  {
    match a
    case ClientWrites =>
    case PiReads =>
    case PiHandles => assert Answers(Handled(c.area, s))[..RESPONSE_SIZE] == Answers(s)[..RESPONSE_SIZE];
    case PiWrites => PutKeepsAnswers(s);
  }

  lemma CurrentStep(c: Config, p: Packet, m: Memory, s: System, a: Action)
    requires WellFormed(c) && s.client.done < |c.script| && p == c.packets[s.client.done]
    requires Enabled(c, s, a) && a != ClientReads && Current(c.area, p, m, s)
    ensures Current(c.area, p, m, Do(c, s, a)) && Do(c, s, a).client.(sent := 0) == s.client.(sent := 0)
  {
    if Refused(c.area, p, s) {
      RefusedStep(c, p, s, a);
    } else if Asking(c.area, p, m, s) {
      match a
      case ClientWrites => AskingWrote(c.area, p, m, s);
      case PiReads =>
        if s.phase.Reading? { AskingTookHeader(c.area, p, m, s); } else { AskingTookData(c.area, p, m, s); }
      case PiHandles => AskingHandled(c.area, p, m, s);
      case PiWrites => assert false;
    } else {
      AnsweredPut(c.area, p, m, s);
    }
  }

  lemma CurrentRead(area: Area, r: Request, p: Packet, m: Memory, s: System)
    requires Current(area, p, m, s) && s.toPc != [] && s.client.error == None
    ensures var s', q := ReadByte(r, s), Answer(area, p.hdr, p.data);
      if |s.client.got| + 1 < RESPONSE_SIZE then
        Current(area, p, m, s') && s'.client.(got := []) == s.client.(got := [])
      else if Fits(area, p.hdr) then
        s' == System(if Passes(r, q) then ClientState(s.client.done + 1, 0, [], None)
                     else ClientState(s.client.done, |p.frame|, EncodeResponse(q), Some(q)),
                     AfterReply(NextOf(p.hdr)), MemoryAfter(area, p.hdr, m, p.data), [], [])
      else
        s'.client.done == s.client.done && s'.client.error == Some(q) && !Passes(r, q)
  {
    if Answered(area, p, m, s) {
      assert Answers(s)[..RESPONSE_SIZE] == Answers(s);
    }
    ReadPromised(r, s, Answer(area, p.hdr, p.data));
  }

  lemma StartAsking(area: Area, p: Packet, m: Memory, k: nat)
    requires Coherent(p)
    ensures Asking(area, p, m, System(ClientState(k, 0, [], None), Reading([]), m, [], []))
  {
  }

  lemma BackInLoop(c: Config, k: nat)
    requires WellFormed(c) && k <= |c.script| && (k > 0 ==> !c.script[k - 1].Exec?)
    ensures EndPhase(c, k) == Reading([])
  {
    if k > 0 { assert Arrives(c.script[k - 1], c.packets[k - 1]); }
  }

  lemma CoherentAt(c: Config, k: nat)
    requires WellFormed(c) && k < |c.script|
    ensures Coherent(c.packets[k])
  {
    assert Arrives(c.script[k], c.packets[k]);
    PacketCoherent(c.script[k], c.packets[k].data);
  }

  /** Between two requests the next one may be asked for: the Pi is back in its loop. */
  lemma BetweenInv(c: Config, k: nat, s: System)
    requires Proper(c) && k <= |c.script| && FirstPass(c, k) && s == Between(c, k)
    ensures Inv(c, s)
  {
    if k < |c.script| {
      CoherentAt(c, k);
      BackInLoop(c, k);
      StartAsking(c.area, c.packets[k], MemBefore(c, k), k);
    }
  }

  lemma FailedInv(c: Config, k: nat, s: System)
    requires Proper(c) && k < |c.script| && !PassesAt(c, k) && FirstPass(c, k) && s == Failed(c, k)
    ensures Inv(c, s)
  {
  }

  lemma InitInv(c: Config)
    requires Proper(c)
    ensures Inv(c, Init(c))
  {
    BetweenInv(c, 0, Init(c));
  }

  lemma PassNext(c: Config, k: nat)
    requires WellFormed(c) && k < |c.script| && FirstPass(c, k) && PassesAt(c, k)
    ensures FirstPass(c, k + 1)
  {
  }

  lemma ReadMore(c: Config, s: System)
    requires Proper(c) && Inv(c, s) && Enabled(c, s, ClientReads) && |s.client.got| + 1 < RESPONSE_SIZE
    ensures Inv(c, Do(c, s, ClientReads))
  {
    var k := s.client.done;
    CurrentRead(c.area, c.script[k], c.packets[k], MemBefore(c, k), s);
  }

  lemma ReadLast(c: Config, s: System)
    requires Proper(c) && Inv(c, s) && Enabled(c, s, ClientReads) && |s.client.got| + 1 >= RESPONSE_SIZE
    requires Fits(c.area, c.packets[s.client.done].hdr)
    ensures var k := s.client.done;
      Do(c, s, ClientReads) == if PassesAt(c, k) then Between(c, k + 1) else Failed(c, k)
  {
    var k := s.client.done;
    CurrentRead(c.area, c.script[k], c.packets[k], MemBefore(c, k), s);
  }

  lemma ReadRefusal(c: Config, s: System)
    requires Proper(c) && Inv(c, s) && Enabled(c, s, ClientReads) && |s.client.got| + 1 >= RESPONSE_SIZE
    requires !Fits(c.area, c.packets[s.client.done].hdr)
    ensures Inv(c, Do(c, s, ClientReads))
  {
    var k := s.client.done;
    CurrentRead(c.area, c.script[k], c.packets[k], MemBefore(c, k), s);
  }

  lemma ReadLastStep(c: Config, s: System)
    requires Proper(c) && Inv(c, s) && Enabled(c, s, ClientReads) && |s.client.got| + 1 >= RESPONSE_SIZE
    requires Fits(c.area, c.packets[s.client.done].hdr)
    ensures Inv(c, Do(c, s, ClientReads))
  {
    ReadLast(c, s);
    var k := s.client.done;
    if PassesAt(c, k) {
      PassNext(c, k);
      BetweenInv(c, k + 1, Do(c, s, ClientReads));
    } else {
      FailedInv(c, k, Do(c, s, ClientReads));
    }
  }

  lemma ReadStep(c: Config, s: System)
    requires Proper(c) && Inv(c, s) && Enabled(c, s, ClientReads)
    ensures Inv(c, Do(c, s, ClientReads))
  {
    if |s.client.got| + 1 < RESPONSE_SIZE {
      ReadMore(c, s);
    } else if !Fits(c.area, c.packets[s.client.done].hdr) {
      ReadRefusal(c, s);
    } else {
      ReadLastStep(c, s);
    }
  }

  lemma StepKeepsInv(c: Config, s: System, a: Action)
    requires Proper(c) && Inv(c, s) && Enabled(c, s, a)
    ensures Inv(c, Do(c, s, a))
  {
    var k := s.client.done;
    if a == ClientReads {
      ReadStep(c, s);
    } else if k < |c.script| && s.client.error == None {
      CurrentStep(c, c.packets[k], MemBefore(c, k), s, a);
    }
  }

  /** The invariant holds after every schedule, that is, for every interleaving of the two processes. */
  lemma {:induction false} EveryStateInv(c: Config, s: System, acts: seq<Action>)
    requires Proper(c) && Inv(c, s) && Valid(c, s, acts)
    ensures Inv(c, After(c, s, acts))
    decreases |acts|
  {
    if acts != [] {
      StepKeepsInv(c, s, acts[0]);
      EveryStateInv(c, Do(c, s, acts[0]), acts[1..]);
    }
  }
}
