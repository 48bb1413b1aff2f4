/** Where the two processes stop: each where its own program, given all of the line at once, would stop. */
module SessionEnd {
  import opened Wrappers
  import opened Bytes
  import opened Memory
  import opened Protocol
  import opened Session
  import opened Bootproto
  import opened PiSteps
  import opened ClientSteps
  import Pi

  lemma StuckIsIdle(c: Config, t: System)
    requires WellFormed(c) && Sound(t.phase) && Stuck(c, t)
    ensures Idle(t)
  {
    assert !Enabled(c, t, PiReads) && !Enabled(c, t, PiHandles) && !Enabled(c, t, PiWrites);
  }

  /** A state in which the client is about to begin and nothing is on its way. */
  predicate Fresh(s: System) {
    s.client == RESTART && s.toPi == [] && s.toPc == [] && Sound(s.phase)
  }

  /** The Pi has read the frames of the requests asked, and has written e. */
  lemma PiEnds(c: Config, s: System, acts: seq<Action>, arrivals: seq<nat>)
    requires WellFormed(c) && Valid(c, s, acts) && Agrees(c, s, acts, arrivals) && Fresh(s)
    requires Stuck(c, After(c, s, acts))
    ensures var t := After(c, s, acts);
      Idle(t) && Ahead(c.area, s.phase, s.mem, Sent(c, s, acts), arrivals)
              == Pi.Service(t.mem, Emitted(c, s, acts), OutcomeOf(t.phase))
  {
    RunAhead(c, s, acts, arrivals);
    StuckIsIdle(c, After(c, s, acts));
    StepsRefineLoop(c, s, acts, arrivals);
  }

  /**
   When neither process can go on: e, the bytes that the Pi has written, decide which requests the client has
   asked, and the frames of these decide what the Pi has made of memory and of e itself.
   */
  lemma StuckEnd(c: Config, s: System, acts: seq<Action>, arrivals: seq<nat>)
      returns (t: System, n: nat, e: seq<byte>, a: seq<byte>)
    requires WellFormed(c) && Valid(c, s, acts) && Agrees(c, s, acts, arrivals) && Fresh(s)
    requires Stuck(c, After(c, s, acts))
    ensures t == After(c, s, acts) && e == Emitted(c, s, acts) && Idle(t) && n == Asked(c, t.client) <= |c.script|
    ensures Ahead(c.area, s.phase, s.mem, WireFrames(c, n), arrivals) == Pi.Service(t.mem, e, OutcomeOf(t.phase))
    ensures ExchangeAll(c.script, e)
         == Exchanged(c.script[..n], t.client.done == |c.script|,
                      if t.client.done == |c.script| || t.client.error.Some? then t.toPc else [])
    ensures ClientInv(c, t.client, a) && Incoming(t, a) == e && Sent(c, s, acts) == WireFrames(c, n)
  {
    t, e := After(c, s, acts), Emitted(c, s, acts);
    n := Asked(c, t.client);
    PiEnds(c, s, acts, arrivals);
    a := StepsRefineExchange(c, s, acts);
  }
}
