/** How long sessions last, and how they end. */
module SessionProgress {
  import opened Wrappers
  import opened Bytes
  import opened Memory
  import opened Protocol
  import opened Session
  import opened SessionSafety

  // ---------- Every session ends ----------

  function FrameSize(c: Config, k: nat): nat
    requires WellFormed(c) && k < |c.script|
  {
    |c.packets[k].frame|
  }

  /** The bytes of all frames from request k on. */
  function Total(c: Config, k: nat): nat
    requires WellFormed(c) && k <= |c.script|
    decreases |c.script| - k
  {
    if k == |c.script| then 0 else FrameSize(c, k) + Total(c, k + 1)
  }

  /** What a phase may still do without another byte. */
  function Potential(p: Phase): nat {
    match p
    case Reading(got) => |got|
    case Handling(_) => HEADER_SIZE
    case Receiving(_, _) => HEADER_SIZE - 2
    case Replying(out, _) => 2 * |out|
    case Running(_, _) => 0
  }

  predicate WellSent(c: Config, s: System)
    requires WellFormed(c)
  {
    s.client.done <= |c.script| &&
    s.client.sent <= (if s.client.done < |c.script| then FrameSize(c, s.client.done) else 0)
  }

  function Measure(c: Config, s: System): nat
    requires WellFormed(c) && WellSent(c, s)
  {
    3 * (Total(c, s.client.done) - s.client.sent) + 2 * |s.toPi| + |s.toPc| + Potential(s.phase)
  }

  lemma MeasureDrops(c: Config, s: System, a: Action)
    requires WellFormed(c) && WellSent(c, s) && Enabled(c, s, a)
    ensures WellSent(c, Do(c, s, a)) && Measure(c, Do(c, s, a)) < Measure(c, s)
  {
    match a
    case ClientWrites =>
    case ClientReads => MeasureRead(c, s);
    case PiReads =>
    case PiHandles => MeasureHandled(c.area, s);
    case PiWrites =>
  }

  lemma MeasureRead(c: Config, s: System)
    requires WellFormed(c) && WellSent(c, s) && Enabled(c, s, ClientReads)
    ensures WellSent(c, Do(c, s, ClientReads)) && Measure(c, Do(c, s, ClientReads)) < Measure(c, s)
  {
  }

  lemma MeasureHandled(area: Area, s: System)
    requires Ready(s.phase)
    ensures var s' := Handled(area, s);
      Potential(s'.phase) < Potential(s.phase) && |s'.toPi| <= |s.toPi| && s'.toPc == s.toPc && s'.client == s.client
  {
  }

  /** No schedule goes on for ever, from whatever state, accepted or not, in step or not. */
  lemma {:induction false} SchedulesEnd(c: Config, s: System, acts: seq<Action>)
    requires WellFormed(c) && WellSent(c, s) && Valid(c, s, acts)
    ensures |acts| <= Measure(c, s)
    decreases |acts|
  {
    if acts != [] {
      MeasureDrops(c, s, acts[0]);
      SchedulesEnd(c, Do(c, s, acts[0]), acts[1..]);
    }
  }

  // ---------- No session gets stuck half way ----------

  predicate Over(c: Config, s: System) {
    s.client.error.Some? || s.client.done == |c.script|
  }

  lemma NotStuck(c: Config, s: System) returns (a: Action)
    requires Proper(c) && Inv(c, s) && !Over(c, s)
    ensures Enabled(c, s, a)
  {
    var p := c.packets[s.client.done];
    if s.client.sent < |p.frame| {
      a := ClientWrites;
    } else if s.toPc != [] {
      a := ClientReads;
    } else if s.phase.Replying? {
      a := PiWrites;
    } else if Ready(s.phase) {
      a := PiHandles;
    } else {
      a := PiReads;
    }
  }

  // ---------- The exact length of a session in which all is well ----------

  function Handlers(h: Header): nat {
    if h.pType == BPT_LOAD then 2 else 1
  }

  function Cost(c: Config, k: nat): nat
    requires WellFormed(c) && k < |c.script|
  {
    2 * FrameSize(c, k) + 2 * RESPONSE_SIZE + Handlers(c.packets[k].hdr)
  }

  /** The steps that the requests from k on take. */
  function Work(c: Config, k: nat): nat
    requires WellFormed(c) && k <= |c.script|
    decreases |c.script| - k
  {
    if k == |c.script| then 0 else Cost(c, k) + Work(c, k + 1)
  }

  function HandlersRun(h: Header, s: System): nat {
    match s.phase
    case Handling(_) => 0
    case Receiving(_, _) => 1
    case Replying(_, _) => Handlers(h)
    case _ => if |s.client.got| + |s.toPc| == RESPONSE_SIZE then Handlers(h) else 0
  }

  /** The steps taken for the current packet: bytes sent, taken, answered and read, and handlers run. */
  function Progress(p: Packet, s: System): int {
    2 * s.client.sent - |s.toPi| + 2 * |s.client.got| + |s.toPc| + HandlersRun(p.hdr, s)
  }

  lemma ProgressStep(c: Config, p: Packet, m: Memory, s: System, a: Action)
    requires WellFormed(c) && s.client.done < |c.script| && p == c.packets[s.client.done]
    requires Enabled(c, s, a) && a != ClientReads && Current(c.area, p, m, s) && Permitted(c.area, p.hdr)
    ensures Progress(p, Do(c, s, a)) == Progress(p, s) + 1
  {
    match a
    case ClientWrites =>
    case PiReads =>
    case PiHandles => ProgressHandled(c.area, p, s);
    case PiWrites => ProgressPut(c.area, p, m, s);
  }

  lemma ProgressHandled(area: Area, p: Packet, s: System)
    requires Ready(s.phase) && s.phase.hdr == p.hdr && (s.phase.Receiving? ==> p.hdr.pType == BPT_LOAD)
    requires IsKnown(p.hdr.pType) && Permitted(area, p.hdr)
    ensures Progress(p, Handled(area, s)) == Progress(p, s) + 1
  {
  }

  lemma ProgressPut(area: Area, p: Packet, m: Memory, s: System)
    requires Current(area, p, m, s) && Permitted(area, p.hdr) && s.phase.Replying? && s.phase.out != []
    ensures Progress(p, PutByte(s)) == Progress(p, s) + 1
  {
  }

  lemma ProgressRead(area: Area, r: Request, p: Packet, m: Memory, s: System)
    requires Current(area, p, m, s) && s.toPc != [] && s.client.error == None && Permitted(area, p.hdr)
    requires s.client.sent == |p.frame|
    ensures |s.client.got| + 1 < RESPONSE_SIZE ==> Progress(p, ReadByte(r, s)) == Progress(p, s) + 1
    ensures |s.client.got| + 1 == RESPONSE_SIZE ==>
      Progress(p, s) + 1 == 2 * |p.frame| + 2 * RESPONSE_SIZE + Handlers(p.hdr)
  {
  }

  lemma ProgressBound(area: Area, p: Packet, m: Memory, s: System)
    requires Current(area, p, m, s) && Permitted(area, p.hdr)
    ensures Progress(p, s) < 2 * |p.frame| + 2 * RESPONSE_SIZE + Handlers(p.hdr)
  {
  }

  /** How many steps a session has still to take when every answer is as hoped. */
  function Rank(c: Config, s: System): int
    requires WellFormed(c)
  {
    var k := s.client.done;
    if k >= |c.script| then 0 else Work(c, k) - Progress(c.packets[k], s)
  }

  ghost predicate AllPass(c: Config) {
    Proper(c) && FirstPass(c, |c.script|)
  }

  lemma {:induction false} PassAt(c: Config, n: nat, k: nat)
    requires WellFormed(c) && k < n <= |c.script| && FirstPass(c, n)
    ensures PassesAt(c, k)
  {
    if k < n - 1 { PassAt(c, n - 1, k); }
  }

  lemma PassPermitted(c: Config, k: nat)
    requires WellFormed(c) && k < |c.script| && PassesAt(c, k)
    ensures Permitted(c.area, c.packets[k].hdr)
  {
  }

  lemma RankBetween(c: Config, k: nat, s: System)
    requires WellFormed(c) && k <= |c.script| && s == Between(c, k)
    ensures Rank(c, s) == Work(c, k)
  {
    assert s.phase.Reading? || s.phase.Running?;
    if k < |c.script| { NothingYet(c.packets[k], s); }
  }

  lemma NothingYet(p: Packet, s: System)
    requires s.client.sent == 0 && s.client.got == [] && s.toPi == [] && s.toPc == []
    requires s.phase.Reading? || s.phase.Running?
    ensures Progress(p, s) == 0
  {
  }

  /** Every step brings the end exactly one step nearer. */
  lemma RankStep(c: Config, s: System, a: Action)
    requires AllPass(c) && Inv(c, s) && Enabled(c, s, a)
    ensures !Over(c, s) && Rank(c, Do(c, s, a)) == Rank(c, s) - 1
  {
    var k := s.client.done;
    if k < |c.script| {
      PassAt(c, |c.script|, k);
      PassPermitted(c, k);
      if a == ClientReads {
        RankRead(c, s);
      } else {
        CurrentStep(c, c.packets[k], MemBefore(c, k), s, a);
        ProgressStep(c, c.packets[k], MemBefore(c, k), s, a);
      }
    }
  }

  lemma RankRead(c: Config, s: System)
    requires AllPass(c) && Inv(c, s) && Enabled(c, s, ClientReads)
    requires PassesAt(c, s.client.done) && Permitted(c.area, c.packets[s.client.done].hdr)
    ensures Rank(c, Do(c, s, ClientReads)) == Rank(c, s) - 1
  {
    if |s.client.got| + 1 < RESPONSE_SIZE { RankReadMore(c, s); } else { RankReadLast(c, s); }
  }

  lemma RankReadMore(c: Config, s: System)
    requires AllPass(c) && Inv(c, s) && Enabled(c, s, ClientReads)
    requires Permitted(c.area, c.packets[s.client.done].hdr) && |s.client.got| + 1 < RESPONSE_SIZE
    ensures Rank(c, Do(c, s, ClientReads)) == Rank(c, s) - 1
  {
    var k := s.client.done;
    ProgressRead(c.area, c.script[k], c.packets[k], MemBefore(c, k), s);
  }

  lemma RankReadLast(c: Config, s: System)
    requires AllPass(c) && Inv(c, s) && Enabled(c, s, ClientReads) && PassesAt(c, s.client.done)
    requires Permitted(c.area, c.packets[s.client.done].hdr) && |s.client.got| + 1 >= RESPONSE_SIZE
    ensures Rank(c, Do(c, s, ClientReads)) == Rank(c, s) - 1
  {
    var k := s.client.done;
    ProgressRead(c.area, c.script[k], c.packets[k], MemBefore(c, k), s);
    ReadLast(c, s);
    RankNext(c, k, s, Do(c, s, ClientReads));
  }

  lemma RankNext(c: Config, k: nat, s: System, s': System)
    requires WellFormed(c) && k < |c.script| && s.client.done == k && s' == Between(c, k + 1)
    requires Progress(c.packets[k], s) + 1 == Cost(c, k)
    ensures Rank(c, s') == Rank(c, s) - 1
  {
    RankBetween(c, k + 1, s');
  }

  lemma RankOver(c: Config, s: System)
    requires AllPass(c) && Inv(c, s)
    ensures Over(c, s) <==> s == Between(c, |c.script|)
    ensures Rank(c, s) >= 0 && (Rank(c, s) == 0 <==> Over(c, s))
  {
    var k := s.client.done;
    if k < |c.script| {
      PassAt(c, |c.script|, k);
      PassPermitted(c, k);
      ProgressBound(c.area, c.packets[k], MemBefore(c, k), s);
    }
  }

  /**
   When every answer is as hoped, all schedules take the same number of steps to the same last state;
   none of them gets stuck before.
   */
  lemma {:induction false} AllSchedulesAgree(c: Config, s: System, acts: seq<Action>)
    requires AllPass(c) && Inv(c, s) && Valid(c, s, acts)
    ensures |acts| <= Rank(c, s)
    ensures Stuck(c, After(c, s, acts)) <==> |acts| == Rank(c, s)
    ensures |acts| == Rank(c, s) ==> After(c, s, acts) == Between(c, |c.script|)
    decreases |acts|
  {
    RankOver(c, s);
    if acts != [] {
      StepKeepsInv(c, s, acts[0]);
      RankStep(c, s, acts[0]);
      AllSchedulesAgree(c, Do(c, s, acts[0]), acts[1..]);
    } else if !Over(c, s) {
      var a := NotStuck(c, s);
    } else {
      forall a: Action ensures !Enabled(c, s, a) {
        if Enabled(c, s, a) { RankStep(c, s, a); }
      }
    }
  }
}
