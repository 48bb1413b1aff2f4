/** The Pi that works byte by byte does what the command loop does on the whole stream. */
module PiSteps {
  import opened Bytes
  import opened Memory
  import opened Protocol
  import opened Session
  import Pi

  /** What is left behind a header: what has arrived is thrown away when its type is not known. */
  function Behind(h: Header, q: seq<byte>, arrivals: seq<nat>): seq<byte> {
    if IsKnown(h.pType) || arrivals == [] then q else q[Pi.Least(arrivals[0], |q|)..]
  }

  function Later(h: Header, arrivals: seq<nat>): seq<nat> {
    if IsKnown(h.pType) || arrivals == [] then arrivals else arrivals[1..]
  }

  /** What the command loop makes of the bytes q behind the header h. */
  function FromHeader(area: Area, mem: Memory, h: Header, q: seq<byte>, arrivals: seq<nat>): Pi.Service {
    var n := PayloadSize(area, h);
    if |q| < n then Pi.Service(Write(mem, h.address, q), [], Pi.InData(h, |q|))
    else
      Answering(area, MemoryAfter(area, h, mem, q[..n]), EncodeResponse(Answer(area, h, q[..n])), NextOf(h),
                Behind(h, q[n..], arrivals), Later(h, arrivals))
  }

  /** What it makes of q once it has the answer out to write. */
  function Answering(area: Area, mem: Memory, out: seq<byte>, next: Next, q: seq<byte>,
                     arrivals: seq<nat>): Pi.Service {
    match next
    case Loop => Pi.Prepend(out, Pi.Serve(area, mem, q, arrivals))
    case Run(a, w) => Pi.Service(mem, out, Pi.Started(a, w))
  }

  /** What it makes of q when n bytes of the data are in memory already. */
  function FromData(area: Area, mem: Memory, h: Header, n: nat, q: seq<byte>, arrivals: seq<nat>): Pi.Service
    requires n <= h.size
    decreases |q|
  {
    if n == h.size then
      Answering(area, mem, EncodeResponse(Verdict(h, Read(mem, h.address, h.size))), Loop, q, arrivals)
    else if q == [] then Pi.Service(mem, [], Pi.InData(h, n))
    else FromData(area, mem[Moved(h.address, n) := q[0]], h, n + 1, q[1..], arrivals)
  }

  /** What is to come of a Pi in some phase, if q is all it will ever read. */
  function Ahead(area: Area, phase: Phase, mem: Memory, q: seq<byte>, arrivals: seq<nat>): Pi.Service
    requires Sound(phase)
  {
    match phase
    case Reading(got) => Pi.Serve(area, mem, got + q, arrivals)
    case Handling(h) => FromHeader(area, mem, h, q, arrivals)
    case Receiving(h, n) => FromData(area, mem, h, n, q, arrivals)
    case Replying(out, next) => Answering(area, mem, out, next, q, arrivals)
    case Running(a, w) => Pi.Service(mem, [], Pi.Started(a, w))
  }

  predicate Sound(phase: Phase) {
    match phase
    case Reading(got) => |got| < HEADER_SIZE
    case Receiving(h, n) => n <= h.size && h.pType == BPT_LOAD
    case Replying(out, _) => out != []
    case _ => true
  }

  lemma HeaderRead(area: Area, mem: Memory, got: seq<byte>, q: seq<byte>, arrivals: seq<nat>)
    requires |got| == HEADER_SIZE
    ensures Pi.Serve(area, mem, got + q, arrivals) == FromHeader(area, mem, DecodeHeader(got), q, arrivals)
  {
    assert (got + q)[..HEADER_SIZE] == got && (got + q)[HEADER_SIZE..] == q;
  }

  lemma DataRead(area: Area, mem: Memory, h: Header, n: nat, b: byte, q: seq<byte>, arrivals: seq<nat>)
    requires n < h.size
    ensures FromData(area, mem[Moved(h.address, n) := b], h, n + 1, q, arrivals)
         == FromData(area, mem, h, n, [b] + q, arrivals)
  {
    assert ([b] + q)[1..] == q;
  }

  lemma AllDataRead(area: Area, mem: Memory, h: Header, q: seq<byte>, arrivals: seq<nat>)
    requires h.pType == BPT_LOAD && Accepts(area, h.address, h.size) && h.size <= |q|
    ensures FromData(area, Write(mem, h.address, q[..h.size]), h, h.size, q[h.size..], arrivals)
         == FromHeader(area, mem, h, q, arrivals)
  {
    ReadWritten(mem, h.address, q[..h.size]);
  }

  lemma DataNext(area: Area, mem: Memory, h: Header, q: seq<byte>, n: nat, arrivals: seq<nat>)
    requires n < h.size && n < |q|
    ensures FromData(area, Write(mem, h.address, q[..n]), h, n, q[n..], arrivals)
         == FromData(area, Write(mem, h.address, q[..n + 1]), h, n + 1, q[n + 1..], arrivals)
  {
    Pi.NextByteRead(mem, h.address, q, n);
    assert q[n..][0] == q[n] && q[n..][1..] == q[n + 1..];
  }

  /** Reading byte by byte is reading at once. */
  lemma {:induction false} DataBegun(area: Area, mem: Memory, h: Header, q: seq<byte>, n: nat, arrivals: seq<nat>)
    requires h.pType == BPT_LOAD && Accepts(area, h.address, h.size) && n <= h.size && n <= |q|
    ensures FromData(area, Write(mem, h.address, q[..n]), h, n, q[n..], arrivals)
         == FromHeader(area, mem, h, q, arrivals)
    decreases h.size - n
  {
    if n == h.size {
      AllDataRead(area, mem, h, q, arrivals);
    } else if n == |q| {
      assert q[..n] == q && q[n..] == [];
    } else {
      DataNext(area, mem, h, q, n, arrivals);
      DataBegun(area, mem, h, q, n + 1, arrivals);
    }
  }

  lemma NothingRead(area: Area, mem: Memory, h: Header, q: seq<byte>, arrivals: seq<nat>)
    requires PayloadSize(area, h) == 0
    ensures FromHeader(area, mem, h, q, arrivals)
         == Answering(area, MemoryAfter(area, h, mem, []), EncodeResponse(Answer(area, h, [])), NextOf(h),
                      Behind(h, q, arrivals), Later(h, arrivals))
  {
    assert q[..0] == [] && q[0..] == q;
  }

  lemma ReplyWritten(area: Area, mem: Memory, out: seq<byte>, next: Next, q: seq<byte>, arrivals: seq<nat>)
    requires out != []
    ensures Answering(area, mem, out, next, q, arrivals)
         == Pi.Prepend([out[0]], Answering(area, mem, out[1..], next, q, arrivals))
  {
    assert [out[0]] + out[1..] == out;
    if next.Loop? { Pi.PrependTwice([out[0]], out[1..], Pi.Serve(area, mem, q, arrivals)); }
  }

  lemma ReplyOver(area: Area, mem: Memory, next: Next, q: seq<byte>, arrivals: seq<nat>)
    ensures Answering(area, mem, [], next, q, arrivals) == Ahead(area, AfterReply(next), mem, q, arrivals)
  {
    assert [] + q == q;
    if next.Loop? {
      var s := Pi.Serve(area, mem, q, arrivals);
      assert [] + s.tx == s.tx;
    }
  }

  // ---------- Steps ----------

  lemma TookAhead(area: Area, s: System, q: seq<byte>, arrivals: seq<nat>)
    requires Sound(s.phase) && WantsByte(s.phase) && s.toPi != []
    ensures var t := Took(s);
      Sound(t.phase) &&
      Ahead(area, t.phase, t.mem, t.toPi + q, arrivals) == Ahead(area, s.phase, s.mem, s.toPi + q, arrivals)
  {
    var b, rest := s.toPi[0], s.toPi[1..] + q;
    assert s.toPi + q == [b] + rest;
    match s.phase
    case Reading(got) =>
      assert got + ([b] + rest) == (got + [b]) + rest;
      if |got| + 1 == HEADER_SIZE { HeaderRead(area, s.mem, got + [b], rest, arrivals); }
    case Receiving(h, n) =>
      DataRead(area, s.mem, h, n, b, rest, arrivals);
  }

  lemma WroteAhead(area: Area, s: System, frame: seq<byte>, q: seq<byte>, arrivals: seq<nat>)
    requires Sound(s.phase) && s.client.sent < |frame|
    ensures var t := Wrote(frame, s);
      t.phase == s.phase &&
      Ahead(area, t.phase, t.mem, t.toPi + q, arrivals)
      == Ahead(area, s.phase, s.mem, s.toPi + ([frame[s.client.sent]] + q), arrivals)
  {
    assert s.toPi + ([frame[s.client.sent]] + q) == (s.toPi + [frame[s.client.sent]]) + q;
  }

  /** What the drain takes away is what has arrived of the bytes still to be read. */
  lemma DrainedBehind(h: Header, arrived: seq<byte>, q: seq<byte>, arrivals: seq<nat>)
    requires !IsKnown(h.pType) && arrivals != [] && Pi.Least(arrivals[0], |arrived + q|) == |arrived|
    ensures Behind(h, arrived + q, arrivals) == [] + q && Later(h, arrivals) == arrivals[1..]
  {
    assert (arrived + q)[|arrived|..] == q && [] + q == q;
  }

  lemma HandledAhead(area: Area, s: System, q: seq<byte>, arrivals: seq<nat>)
    requires Sound(s.phase) && Ready(s.phase) && !Drains(s, PiHandles)
    ensures var t := Handled(area, s);
      Sound(t.phase) &&
      Ahead(area, t.phase, t.mem, t.toPi + q, arrivals) == Ahead(area, s.phase, s.mem, s.toPi + q, arrivals)
  {
    var h, r := s.phase.hdr, s.toPi + q;
    if s.phase.Receiving? {
    } else if h.pType == BPT_LOAD && Accepts(area, h.address, h.size) {
      assert r[..0] == [] && r[0..] == r;
      WriteNothing(s.mem, h.address);
      DataBegun(area, s.mem, h, r, 0, arrivals);
    } else {
      NothingRead(area, s.mem, h, r, arrivals);
    }
  }

  lemma DrainedAhead(area: Area, s: System, q: seq<byte>, arrivals: seq<nat>)
    requires Drains(s, PiHandles) && arrivals != [] && Pi.Least(arrivals[0], |s.toPi + q|) == |s.toPi|
    ensures var t := Handled(area, s);
      Sound(t.phase) &&
      Ahead(area, t.phase, t.mem, t.toPi + q, arrivals[1..]) == Ahead(area, s.phase, s.mem, s.toPi + q, arrivals)
  {
    NothingRead(area, s.mem, s.phase.hdr, s.toPi + q, arrivals);
    DrainedBehind(s.phase.hdr, s.toPi, q, arrivals);
  }

  lemma PutAhead(area: Area, s: System, q: seq<byte>, arrivals: seq<nat>)
    requires Sound(s.phase) && s.phase.Replying?
    ensures var t := PutByte(s);
      Sound(t.phase) && t.toPi == s.toPi &&
      Ahead(area, s.phase, s.mem, q, arrivals)
      == Pi.Prepend([s.phase.out[0]], Ahead(area, t.phase, t.mem, q, arrivals))
  {
    ReplyWritten(area, s.mem, s.phase.out, s.phase.next, q, arrivals);
    if |s.phase.out| == 1 { ReplyOver(area, s.mem, s.phase.next, q, arrivals); }
  }

  // ---------- Runs ----------

  /** Of the bytes that are left each time, the numbers in arrivals throw away what the schedule throws away. */
  predicate Agrees(c: Config, s: System, acts: seq<Action>, arrivals: seq<nat>)
    requires WellFormed(c) && Valid(c, s, acts)
    decreases |acts|
  {
    acts == [] ||
    var t, rest := Do(c, s, acts[0]), acts[1..];
    if Drains(s, acts[0]) then
      arrivals != [] && Pi.Least(arrivals[0], |s.toPi + Sent(c, t, rest)|) == |s.toPi| &&
      Agrees(c, t, rest, arrivals[1..])
    else Agrees(c, t, rest, arrivals)
  }

  function Remaining(c: Config, s: System, acts: seq<Action>, arrivals: seq<nat>): seq<nat>
    requires WellFormed(c) && Valid(c, s, acts) && Agrees(c, s, acts, arrivals)
    decreases |acts|
  {
    if acts == [] then arrivals
    else Remaining(c, Do(c, s, acts[0]), acts[1..], if Drains(s, acts[0]) then arrivals[1..] else arrivals)
  }

  lemma {:induction false} DrainedAgrees(c: Config, s: System, acts: seq<Action>)
    requires WellFormed(c) && Valid(c, s, acts)
    ensures Agrees(c, s, acts, Drained(c, s, acts))
    decreases |acts|
  {
    if acts != [] {
      DrainedAgrees(c, Do(c, s, acts[0]), acts[1..]);
      var rest := Drained(c, Do(c, s, acts[0]), acts[1..]);
      assert ([|s.toPi|] + rest)[1..] == rest;
    }
  }

  lemma StepAhead(c: Config, s: System, a: Action, q: seq<byte>, arrivals: seq<nat>)
    requires WellFormed(c) && Enabled(c, s, a) && Sound(s.phase)
    requires Drains(s, a) ==> arrivals != [] && Pi.Least(arrivals[0], |s.toPi + q|) == |s.toPi|
    ensures var t := Do(c, s, a);
      var sent := if a == ClientWrites then [c.packets[s.client.done].frame[s.client.sent]] else [];
      var ahead := Ahead(c.area, s.phase, s.mem, s.toPi + (sent + q), arrivals);
      Sound(t.phase) &&
      var after := Ahead(c.area, t.phase, t.mem, t.toPi + q, if Drains(s, a) then arrivals[1..] else arrivals);
      ahead == if a == PiWrites then Pi.Prepend([s.phase.out[0]], after) else after
  {
    assert [] + q == q;
    match a
    case ClientWrites => WroteAhead(c.area, s, c.packets[s.client.done].frame, q, arrivals);
    case ClientReads =>
    case PiReads => TookAhead(c.area, s, q, arrivals);
    case PiHandles =>
      if Drains(s, a) { DrainedAhead(c.area, s, q, arrivals); } else { HandledAhead(c.area, s, q, arrivals); }
    case PiWrites => PutAhead(c.area, s, s.toPi + q, arrivals);
  }

  /** What the Pi does along any schedule, and what it would still do, is what it was to do from the start. */
  lemma {:induction false} RunAhead(c: Config, s: System, acts: seq<Action>, arrivals: seq<nat>)
    requires WellFormed(c) && Valid(c, s, acts) && Agrees(c, s, acts, arrivals) && Sound(s.phase)
    ensures var t := After(c, s, acts);
      Sound(t.phase) &&
      Ahead(c.area, s.phase, s.mem, s.toPi + Sent(c, s, acts), arrivals)
      == Pi.Prepend(Emitted(c, s, acts), Ahead(c.area, t.phase, t.mem, t.toPi, Remaining(c, s, acts, arrivals)))
    decreases |acts|
  {
    if acts == [] {
      assert s.toPi + [] == s.toPi;
      var x := Ahead(c.area, s.phase, s.mem, s.toPi, arrivals);
      assert [] + x.tx == x.tx;
    } else {
      var u := Do(c, s, acts[0]);
      var q := Sent(c, u, acts[1..]);
      var arrivals' := if Drains(s, acts[0]) then arrivals[1..] else arrivals;
      assert [] + q == q;
      StepAhead(c, s, acts[0], q, arrivals);
      RunAhead(c, u, acts[1..], arrivals');
      if acts[0] == PiWrites {
        var t := After(c, s, acts);
        Pi.PrependTwice([s.phase.out[0]], Emitted(c, u, acts[1..]),
                        Ahead(c.area, t.phase, t.mem, t.toPi, Remaining(c, u, acts[1..], arrivals')));
      }
    }
  }

  /** The Pi can do nothing more with what it has. */
  predicate Idle(s: System) {
    s.phase.Running? || (WantsByte(s.phase) && s.toPi == [])
  }

  function OutcomeOf(phase: Phase): Pi.Outcome
    requires phase.Running? || phase.Reading? || phase.Receiving?
  {
    match phase
    case Reading(got) => Pi.InHeader(got)
    case Receiving(h, n) => Pi.InData(h, n)
    case Running(a, w) => Pi.Started(a, w)
  }

  lemma IdleAhead(area: Area, s: System, arrivals: seq<nat>)
    requires Sound(s.phase) && Idle(s)
    ensures Ahead(area, s.phase, s.mem, s.toPi, arrivals) == Pi.Service(s.mem, [], OutcomeOf(s.phase))
  {
    if s.phase.Reading? { assert s.phase.got + [] == s.phase.got; }
  }

  /**
   Whenever the Pi can do nothing more, its memory, what it waits for and all it has answered are what the
   command loop makes of the whole stream at once, however the bytes were interleaved.
   */
  lemma StepsRefineLoop(c: Config, s: System, acts: seq<Action>, arrivals: seq<nat>)
    requires WellFormed(c) && Valid(c, s, acts) && Agrees(c, s, acts, arrivals)
    requires Sound(s.phase) && s.toPi == [] && Idle(After(c, s, acts))
    ensures var t := After(c, s, acts);
      Ahead(c.area, s.phase, s.mem, Sent(c, s, acts), arrivals)
      == Pi.Service(t.mem, Emitted(c, s, acts), OutcomeOf(t.phase))
  {
    var t, e, q := After(c, s, acts), Emitted(c, s, acts), Sent(c, s, acts);
    RunAhead(c, s, acts, arrivals);
    IdleAhead(c.area, t, Remaining(c, s, acts, arrivals));
    assert [] + q == q && e + [] == e;
  }
}
