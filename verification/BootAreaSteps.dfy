/** The bootloader's memory at every moment of a session, also in the middle of the data of a LOAD. */
module BootAreaSteps {
  import opened Bytes
  import opened Memory
  import opened Protocol
  import opened Session
  import opened BootArea

  /** The header that the Pi is working on, if any, has a bounded range. */
  ghost predicate BoundedPhase(area: Area, phase: Phase) {
    match phase
    case Handling(h) => Bounded(area, h)
    case Receiving(h, n) =>
      h.pType == BPT_LOAD && Accepts(area, h.address, h.size) && Bounded(area, h) && n <= h.size
    case _ => true
  }

  /** Every header that the Pi takes along the schedule has a bounded range. */
  ghost predicate AllPhasesBounded(c: Config, s: System, acts: seq<Action>)
    requires WellFormed(c) && Valid(c, s, acts)
    decreases |acts|
  {
    (s.phase.Handling? ==> Bounded(c.area, s.phase.hdr)) &&
    (acts == [] || AllPhasesBounded(c, Do(c, s, acts[0]), acts[1..]))
  }

  lemma AddressMisses(area: Area, addr: u32, n: u32, x: int)
    requires Placed(area) && Accepts(area, addr, n) && !Covers(area, addr, n) && Among(x, addr, n)
    ensures !(area.runAddr - 4096 <= x < area.runEnd)
  {
    AcceptedMeets(area, addr, n);
  }

  lemma ByteMisses(area: Area, mem: Memory, h: Header, n: nat, b: byte)
    requires Placed(area) && Bounded(area, h) && h.pType == BPT_LOAD && Accepts(area, h.address, h.size) && n < h.size
    ensures SameArea(area, mem, mem[Moved(h.address, n) := b])
  {
    var x := Moved(h.address, n);
    OffsetUnique(x, h.address, n);
    AddressMisses(area, h.address, h.size, x);
  }

  lemma HandlerMisses(area: Area, s: System)
    requires Placed(area) && Ready(s.phase) && BoundedPhase(area, s.phase)
    ensures SameArea(area, s.mem, Handled(area, s).mem) && BoundedPhase(area, Handled(area, s).phase)
  {
    var h := s.phase.hdr;
    if s.phase.Handling? && h.pType == BPT_ZERO && Accepts(area, h.address, h.size) {
      WriteMisses(area, s.mem, h, Fill(FillPattern(h.flags & BPF_BEEF != 0), h.size));
    }
  }

  lemma StepMisses(c: Config, s: System, a: Action)
    requires WellFormed(c) && Placed(c.area) && Enabled(c, s, a) && BoundedPhase(c.area, s.phase)
    ensures var t := Do(c, s, a);
      SameArea(c.area, s.mem, t.mem) && (t.phase.Handling? || BoundedPhase(c.area, t.phase))
  {
    match a
    case PiReads => if s.phase.Receiving? { ByteMisses(c.area, s.mem, s.phase.hdr, s.phase.received, s.toPi[0]); }
    case PiHandles => HandlerMisses(c.area, s);
    case _ =>
  }

  /**
   Whatever is sent, refused or not and in step or not, as long as no range covers the program and its stack page,
   no step of any schedule changes either.
   */
  lemma {:induction false} AreaKeptThroughout(c: Config, s: System, acts: seq<Action>)
    requires WellFormed(c) && 4096 <= c.area.runAddr < c.area.runEnd && Valid(c, s, acts)
    requires AllPhasesBounded(c, s, acts) && (s.phase.Handling? || BoundedPhase(c.area, s.phase))
    ensures forall x | c.area.runAddr - 4096 <= x < c.area.runEnd :: After(c, s, acts).mem[x] == s.mem[x]
    decreases |acts|
  {
    if acts != [] {
      StepMisses(c, s, acts[0]);
      AreaKeptThroughout(c, Do(c, s, acts[0]), acts[1..]);
    }
  }
}
