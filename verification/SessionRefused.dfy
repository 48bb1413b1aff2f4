/** What becomes of the Pi when a request is refused: the data behind the header is taken for packets. */
module SessionRefused {
  import opened Wrappers
  import opened Bytes
  import opened Memory
  import opened Protocol
  import opened Session
  import opened SessionSafety
  import opened SessionProgress
  import opened SessionOutcome
  import opened PiSteps
  import opened PiRuns
  import opened PiStores
  import opened ClientSteps
  import opened SessionEnd
  import opened SessionTimely
  import Pi

  lemma FrameArrives(c: Config, k: nat)
    requires WellFormed(c) && k < |c.script|
    ensures Sendable(c.script[k]) && |c.packets[k].data| == |PayloadOf(c.script[k])|
    ensures c.packets[k].frame == EncodeHeader(HeaderOf(c.script[k])) + c.packets[k].data
  {
    assert Arrives(c.script[k], c.packets[k]);
  }

  /** The first k requests, none of them EXEC, arrive as they are sent and are served. */
  lemma {:induction false} GoodServed(c: Config, k: nat)
    requires Proper(c) && k < |c.script| && Good(c, k)
    ensures AllServed(c.area, c.script[..k]) && Frames(c.script[..k]) == WireFrames(c, k)
  {
    if k > 0 {
      GoodServed(c, k - 1);
      FrameArrives(c, k - 1);
      ServedNext(c.area, c.script, k);
    }
  }

  lemma ServedNext(area: Area, script: seq<Request>, k: nat)
    requires 0 < k <= |script| && AllServed(area, script[..k - 1]) && Served(area, script[k - 1])
    ensures AllServed(area, script[..k]) && Frames(script[..k]) == Frames(script[..k - 1]) + Frame(script[k - 1])
  {
    assert script[..k][..k - 1] == script[..k - 1];
  }

  lemma {:induction false} RepliesLength(script: seq<Request>)
    ensures |Replies(script)| == RESPONSE_SIZE * |script|
  {
    if script != [] { RepliesLength(script[..|script| - 1]); }
  }

  /** The command loop on the frames up to the refused one. */
  lemma RefusedStream(c: Config, k: nat, arrivals: seq<nat>, v: Pi.Service)
    requires Proper(c) && k < |c.script| && Good(c, k) && !InRange(c.area, c.script[k])
    requires v == Pi.Serve(c.area, EffectAll(c.script[..k], c.mem), c.packets[k].data, arrivals)
    ensures Pi.Serve(c.area, c.mem, WireFrames(c, k + 1), arrivals)
         == Pi.Prepend(Replies(c.script[..k]) + EncodeResponse(OVERWRITE), v)
  {
    GoodServed(c, k);
    FrameArrives(c, k);
    ServeFrames(c.area, c.mem, c.script[..k], c.packets[k].frame, arrivals);
    RefusedHeader(c.area, EffectAll(c.script[..k], c.mem), c.script[k], c.packets[k].data, arrivals);
    Pi.PrependTwice(Replies(c.script[..k]), EncodeResponse(OVERWRITE), v);
  }

  /** What the client has read, what it has got and what is left are one after the other in e. */
  lemma LastAnswer(a: seq<byte>, got: seq<byte>, q: seq<byte>, r: seq<byte>, o: seq<byte>, tx: seq<byte>)
    requires a + got + q == r + o + tx && |a| == |r| && |got| == |o|
    ensures got == o && q == tx
  {
    assert (a + got + q)[|a|..|a| + |got|] == got && (r + o + tx)[|r|..|r| + |o|] == o;
    assert (a + got + q)[|a| + |got|..] == q && (r + o + tx)[|r| + |o|..] == tx;
  }

  lemma RefusedEnd(c: Config, k: nat, s: System, a: seq<byte>, e: seq<byte>, v: Pi.Service)
    requires WellFormed(c) && k < |c.script| && ClientInv(c, s.client, a) && Incoming(s, a) == e
    requires s.client.done == k && s.client.error == Some(OVERWRITE) && Idle(s)
    requires Pi.Service(s.mem, e, OutcomeOf(s.phase))
          == Pi.Prepend(Replies(c.script[..k]) + EncodeResponse(OVERWRITE), v)
    ensures Pi.Service(s.mem, s.toPc, OutcomeOf(s.phase)) == v
    ensures s.client == ClientState(k, |c.packets[k].frame|, EncodeResponse(OVERWRITE), Some(OVERWRITE))
  {
    RepliedLength(c.script, k, a);
    RepliesLength(c.script[..k]);
    LastAnswer(a, s.client.got, s.toPc, Replies(c.script[..k]), EncodeResponse(OVERWRITE), v.tx);
  }

  lemma RefusedAhead(c: Config, k: nat, n: nat, arrivals: seq<nat>, v: Pi.Service)
    requires Proper(c) && n == k + 1 && k < |c.script| && Good(c, k) && !InRange(c.area, c.script[k])
    requires v == Pi.Serve(c.area, EffectAll(c.script[..k], c.mem), c.packets[k].data, arrivals)
    ensures Ahead(c.area, Init(c).phase, Init(c).mem, WireFrames(c, n), arrivals)
         == Pi.Prepend(Replies(c.script[..k]) + EncodeResponse(OVERWRITE), v)
  {
    EmptyEnds(WireFrames(c, k + 1));
    RefusedStream(c, k, arrivals, v);
  }

  /** The client has asked for all up to the refused request, and nothing more. */
  lemma RefusedGiven(c: Config, k: nat, acts: seq<Action>, arrivals: seq<nat>, s: System)
      returns (n: nat, a: seq<byte>, e: seq<byte>)
    requires WellFormed(c) && k < |c.script| && Valid(c, Init(c), acts) && Agrees(c, Init(c), acts, arrivals)
    requires s == After(c, Init(c), acts) && Stuck(c, s) && s.client.done == k
    ensures n == k + 1 && ClientInv(c, s.client, a) && Incoming(s, a) == e && Idle(s)
    ensures Ahead(c.area, Init(c).phase, Init(c).mem, WireFrames(c, n), arrivals)
         == Pi.Service(s.mem, e, OutcomeOf(s.phase))
  {
    var t;
    t, n, e, a := StuckEnd(c, Init(c), acts, arrivals);
  }

  lemma RefusedStop(c: Config, k: nat, acts: seq<Action>, arrivals: seq<nat>, s: System, v: Pi.Service)
    requires Proper(c) && k < |c.script| && Good(c, k) && !InRange(c.area, c.script[k])
    requires Valid(c, Init(c), acts) && Agrees(c, Init(c), acts, arrivals)
    requires s == After(c, Init(c), acts) && Stuck(c, s) && s.client.done == k && s.client.error == Some(OVERWRITE)
    requires v == Pi.Serve(c.area, EffectAll(c.script[..k], c.mem), c.packets[k].data, arrivals)
    ensures Idle(s) && Pi.Service(s.mem, s.toPc, OutcomeOf(s.phase)) == v
    ensures s.client == ClientState(k, |c.packets[k].frame|, EncodeResponse(OVERWRITE), Some(OVERWRITE))
  {
    var n, a, e := RefusedGiven(c, k, acts, arrivals, s);
    RefusedAhead(c, k, n, arrivals, v);
    RefusedEnd(c, k, s, a, e, v);
  }

  /**
   A request outside the permitted ranges is the end of the session, with the error "overwrite". What the Pi
   then holds is what the command loop makes of the data of that request, after the requests before it.
   */
  lemma RefusedSession(c: Config, k: nat, acts: seq<Action>, arrivals: seq<nat>)
    requires Proper(c) && k < |c.script| && Good(c, k) && !InRange(c.area, c.script[k])
    requires Valid(c, Init(c), acts) && Agrees(c, Init(c), acts, arrivals)
    ensures var s := After(c, Init(c), acts);
      s.client.done <= k &&
      (Stuck(c, s) ==>
        var v := Pi.Serve(c.area, EffectAll(c.script[..k], c.mem), c.packets[k].data, arrivals);
        Idle(s) && Pi.Service(s.mem, s.toPc, OutcomeOf(s.phase)) == v &&
        s.client == ClientState(k, |c.packets[k].frame|, EncodeResponse(OVERWRITE), Some(OVERWRITE)))
  {
    GoodPasses(c, k);
    RefusedAnswer(c, k);
    FirstFailure(c, k, acts);
    var s := After(c, Init(c), acts);
    if Stuck(c, s) {
      var v := Pi.Serve(c.area, EffectAll(c.script[..k], c.mem), c.packets[k].data, arrivals);
      RefusedStop(c, k, acts, arrivals, s, v);
    }
  }

  // ---------- Where the Pi ends ----------

  lemma HandlingKnown(area: Area, p: Packet, m: Memory, s: System)
    requires Current(area, p, m, s) && Fits(area, p.hdr) && s.phase.Handling?
    ensures IsKnown(s.phase.hdr.pType)
  {
  }

  /** As long as requests are accepted only known packets are handled. */
  lemma KnownBefore(c: Config, k: nat, s: System)
    requires Proper(c) && Inv(c, s) && k < |c.script| && Good(c, k) && s.client.done < k && s.phase.Handling?
    ensures IsKnown(s.phase.hdr.pType)
  {
    var d := s.client.done;
    GoodPasses(c, k);
    PassAt(c, k, d);
    GoodAtEarlier(c, k, d);
    FitsWhenGood(c, d);
    HandlingKnown(c.area, c.packets[d], MemBefore(c, d), s);
  }

  lemma NoDrainBefore(c: Config, k: nat, s: System)
    requires Proper(c) && Inv(c, s) && k < |c.script| && Good(c, k) && Drains(s, PiHandles)
    ensures s.client.done >= k
  {
    if s.client.done < k { KnownBefore(c, k, s); }
  }

  lemma {:induction false} GoodAtEarlier(c: Config, k: nat, d: nat)
    requires WellFormed(c) && d < k <= |c.script| && Good(c, k)
    ensures GoodAt(c, d)
  {
    if d < k - 1 { GoodAtEarlier(c, k - 1, d); }
  }

  lemma FitsWhenGood(c: Config, d: nat)
    requires WellFormed(c) && d < |c.script| && GoodAt(c, d)
    ensures Fits(c.area, c.packets[d].hdr)
  {
    assert Arrives(c.script[d], c.packets[d]);
  }

  lemma {:induction false} DrainsLate(c: Config, k: nat, s: System, acts: seq<Action>)
    requires Proper(c) && Inv(c, s) && k < |c.script| && Good(c, k) && Valid(c, s, acts)
    ensures DrainsFrom(c, s, acts, k)
    decreases |acts|
  {
    if acts != [] {
      if Drains(s, acts[0]) { NoDrainBefore(c, k, s); }
      StepKeepsInv(c, s, acts[0]);
      DrainsLate(c, k, Do(c, s, acts[0]), acts[1..]);
    }
  }

  /** When the drains are timely the end does not depend on the schedule at all. */
  lemma TimelyRefusal(c: Config, k: nat, acts: seq<Action>)
    requires Proper(c) && k < |c.script| && Good(c, k) && !InRange(c.area, c.script[k])
    requires Valid(c, Init(c), acts) && Timely(c, Init(c), acts) && Stuck(c, After(c, Init(c), acts))
    ensures var s := After(c, Init(c), acts);
      Idle(s) && Pi.Service(s.mem, s.toPc, OutcomeOf(s.phase))
              == Pi.Serve(c.area, EffectAll(c.script[..k], c.mem), c.packets[k].data, Flood(c, Init(c))) &&
      s.client == ClientState(k, |c.packets[k].frame|, EncodeResponse(OVERWRITE), Some(OVERWRITE))
  {
    GoodPasses(c, k);
    RefusedAnswer(c, k);
    FirstFailure(c, k, acts);
    InitInv(c);
    DrainsLate(c, k, Init(c), acts);
    TimelyAgrees(c, Init(c), acts, k);
    RefusedSession(c, k, acts, Flood(c, Init(c)));
  }

  /** Data too short for a header, none at all in a ZERO for instance, is kept as the beginning of one. */
  lemma RefusedShort(c: Config, k: nat, acts: seq<Action>)
    requires Proper(c) && k < |c.script| && Good(c, k) && !InRange(c.area, c.script[k])
    requires |c.packets[k].data| < HEADER_SIZE
    requires Valid(c, Init(c), acts) && Stuck(c, After(c, Init(c), acts))
    ensures After(c, Init(c), acts)
         == System(ClientState(k, |c.packets[k].frame|, EncodeResponse(OVERWRITE), Some(OVERWRITE)),
                   Reading(c.packets[k].data), EffectAll(c.script[..k], c.mem), [], [])
  {
    DrainedAgrees(c, Init(c), acts);
    RefusedSession(c, k, acts, Drained(c, Init(c), acts));
  }

  lemma UnknownData(area: Area, mem: Memory, d: seq<byte>, arrivals: seq<nat>)
    requires |d| >= HEADER_SIZE && !IsKnown(FromLE32(d[..4])) && arrivals != [] && arrivals[0] >= |d|
    ensures Pi.Serve(area, mem, d, arrivals)
         == Pi.Service(mem, EncodeResponse(Response(BPR_ERR, FromLE32(d[..4]))), Pi.InHeader([]))
  {
    assert d[..HEADER_SIZE][..4] == d[..4];
    UnknownServed(area, mem, d, arrivals);
  }

  /** Data that begins with no known code is thrown away, when the drain is timely, and reported once more. */
  lemma RefusedUnknown(c: Config, k: nat, acts: seq<Action>)
    requires Proper(c) && k < |c.script| && Good(c, k) && !InRange(c.area, c.script[k])
    requires |c.packets[k].data| >= HEADER_SIZE && !IsKnown(FromLE32(c.packets[k].data[..4]))
    requires Valid(c, Init(c), acts) && Timely(c, Init(c), acts) && Stuck(c, After(c, Init(c), acts))
    ensures After(c, Init(c), acts)
         == System(ClientState(k, |c.packets[k].frame|, EncodeResponse(OVERWRITE), Some(OVERWRITE)),
                   Reading([]), EffectAll(c.script[..k], c.mem), [],
                   EncodeResponse(Response(BPR_ERR, FromLE32(c.packets[k].data[..4]))))
  {
    TimelyRefusal(c, k, acts);
    FloodTakesAll(c, k);
    UnknownData(c.area, EffectAll(c.script[..k], c.mem), c.packets[k].data, Flood(c, Init(c)));
  }

  lemma FloodTakesAll(c: Config, k: nat)
    requires WellFormed(c) && k < |c.script|
    ensures Flood(c, Init(c)) != [] && Flood(c, Init(c))[0] >= |c.packets[k].data|
  {
    FrameArrives(c, k);
    TotalAtLeast(c, 0, k);
  }

  lemma {:induction false} TotalAtLeast(c: Config, i: nat, k: nat)
    requires WellFormed(c) && i <= k < |c.script|
    ensures Total(c, i) >= |c.packets[k].frame|
    decreases k - i
  {
    if i < k { TotalAtLeast(c, i + 1, k); }
  }

  /**
   Memory is what the accepted requests have made of it when the data stores nothing; MemoryKeptExactly says
   that this is the exact condition.
   */
  lemma RefusedKeepsMemory(c: Config, k: nat, acts: seq<Action>, arrivals: seq<nat>)
    requires Proper(c) && k < |c.script| && Good(c, k) && !InRange(c.area, c.script[k])
    requires Valid(c, Init(c), acts) && Agrees(c, Init(c), acts, arrivals) && Stuck(c, After(c, Init(c), acts))
    requires StoresNothing(c.area, c.packets[k].data, arrivals)
    ensures After(c, Init(c), acts).mem == EffectAll(c.script[..k], c.mem)
  {
    RefusedSession(c, k, acts, arrivals);
    MemoryKeptExactly(c.area, c.packets[k].data, arrivals);
  }
}
