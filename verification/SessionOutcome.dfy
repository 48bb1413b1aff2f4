/** The three ways a session can end: all accepted, one request refused, or data damaged on the line. */
module SessionOutcome {
  import opened Wrappers
  import opened Bytes
  import opened Memory
  import opened Protocol
  import opened Session
  import opened SessionSafety
  import opened SessionProgress
  import Crc32
  import CrcProperties

  /** Request k has a range that the Pi accepts, and its data arrives as it was sent. */
  ghost predicate GoodAt(c: Config, k: nat)
    requires WellFormed(c) && k < |c.script|
  {
    InRange(c.area, c.script[k]) && c.packets[k].data == PayloadOf(c.script[k])
  }

  /** So it is with the first k requests. */
  ghost predicate Good(c: Config, k: nat)
    requires WellFormed(c) && k <= |c.script|
  {
    k == 0 || (Good(c, k - 1) && GoodAt(c, k - 1))
  }

  lemma {:induction false} AllGood(c: Config, k: nat)
    requires WellFormed(c) && k <= |c.script| && forall j | 0 <= j < k :: GoodAt(c, j)
    ensures Good(c, k)
  {
    if k > 0 { AllGood(c, k - 1); }
  }

  lemma GoodStep(c: Config, k: nat)
    requires WellFormed(c) && k < |c.script| && GoodAt(c, k)
    ensures PassesAt(c, k)
  {
    assert Arrives(c.script[k], c.packets[k]);
    RequestAnswered(c.area, c.script[k], c.mem);
  }

  lemma GoodNext(c: Config, k: nat)
    requires WellFormed(c) && 0 < k <= |c.script| && FirstPass(c, k - 1) && GoodAt(c, k - 1)
    ensures FirstPass(c, k)
  {
    GoodStep(c, k - 1);
  }

  lemma GoodMemNext(c: Config, k: nat, m: Memory, w: Memory)
    requires WellFormed(c) && 0 < k <= |c.script| && GoodAt(c, k - 1)
    requires m == MemBefore(c, k - 1) && m == EffectAll(c.script[..k - 1], c.mem) && w == MemBefore(c, k)
    ensures w == EffectAll(c.script[..k], c.mem)
  {
    assert Arrives(c.script[k - 1], c.packets[k - 1]);
    RequestAnswered(c.area, c.script[k - 1], m);
    EffectLast(c.script, k, c.mem);
  }

  lemma {:induction false} GoodFirst(c: Config, k: nat)
    requires WellFormed(c) && k <= |c.script| && Good(c, k)
    ensures FirstPass(c, k)
  {
    if k > 0 {
      GoodFirst(c, k - 1);
      GoodNext(c, k);
    }
  }

  lemma {:induction false} GoodMem(c: Config, k: nat)
    requires WellFormed(c) && k <= |c.script| && Good(c, k)
    ensures MemBefore(c, k) == EffectAll(c.script[..k], c.mem)
  {
    if k > 0 {
      GoodMem(c, k - 1);
      GoodMemNext(c, k, MemBefore(c, k - 1), MemBefore(c, k));
    }
  }

  lemma GoodPasses(c: Config, k: nat)
    requires WellFormed(c) && k <= |c.script| && Good(c, k)
    ensures FirstPass(c, k) && MemBefore(c, k) == EffectAll(c.script[..k], c.mem)
  {
    GoodFirst(c, k);
    GoodMem(c, k);
  }

  /**
   Every interleaving of a session with accepted ranges takes the same number of steps and ends in the same
   state: all requests acknowledged, nothing on its way, and memory overwritten by the requests in order.
   */
  lemma AcceptedSession(c: Config, acts: seq<Action>)
    requires Proper(c) && Good(c, |c.script|) && Valid(c, Init(c), acts)
    ensures |acts| <= Work(c, 0)
    ensures Stuck(c, After(c, Init(c), acts)) <==> |acts| == Work(c, 0)
    ensures |acts| == Work(c, 0) ==>
      After(c, Init(c), acts) ==
      System(ClientState(|c.script|, 0, [], None), EndPhase(c, |c.script|), EffectAll(c.script, c.mem), [], [])
  {
    var n := |c.script|;
    GoodPasses(c, n);
    assert c.script[..n] == c.script;
    InitInv(c);
    RankBetween(c, 0, Init(c));
    AllSchedulesAgree(c, Init(c), acts);
  }

  /** The first answer that is not as hoped ends the session; the client never gets past it. */
  lemma FirstFailure(c: Config, k: nat, acts: seq<Action>)
    requires Proper(c) && k < |c.script| && FirstPass(c, k) && !PassesAt(c, k) && Valid(c, Init(c), acts)
    ensures var s := After(c, Init(c), acts);
      s.client.done <= k &&
      (Stuck(c, s) ==>
        s.client.done == k && s.client.error == Some(AnswerAt(c, k)) &&
        (Fits(c.area, c.packets[k].hdr) ==> s == Failed(c, k)))
  {
    var s := After(c, Init(c), acts);
    InitInv(c);
    EveryStateInv(c, Init(c), acts);
    var d := s.client.done;
    if d > k { PassAt(c, d, k); }
    if d < k { PassAt(c, k, d); }
    if !Over(c, s) {
      var a := NotStuck(c, s);
    }
  }

  lemma RefusedAnswer(c: Config, k: nat)
    requires WellFormed(c) && k < |c.script| && !InRange(c.area, c.script[k])
    ensures AnswerAt(c, k) == OVERWRITE && !PassesAt(c, k)
  {
    assert Arrives(c.script[k], c.packets[k]);
    RequestAnswered(c.area, c.script[k], c.mem);
  }

  /** The answer to a LOAD whose header is whole is ACK exactly when the checksums agree. */
  lemma LoadAnswer(area: Area, r: Request, d: seq<byte>)
    requires Sendable(r) && r.Load? && InRange(area, r)
    ensures Answer(area, HeaderOf(r), d) ==
      if Crc32.Crc(0, d) == Crc32.Crc(0, r.data) then Response(BPR_ACK, 0) else Response(BPR_ERR, BPE_CRC)
  {
  }

  /**
   A burst of errors in the data of a LOAD, its header being whole, is the end of the session with the error
   "CRC": nothing is acknowledged, and the Pi is back in its loop, in step, with the damaged data in memory.
   */
  lemma DamagedSession(c: Config, k: nat, p: nat, acts: seq<Action>)
    requires Proper(c) && k < |c.script| && Good(c, k) && Valid(c, Init(c), acts)
    requires var r := c.script[k]; r.Load? && InRange(c.area, r) && CrcProperties.Burst(r.data, c.packets[k].data, p)
    ensures var s, r := After(c, Init(c), acts), c.script[k];
      s.client.done <= k &&
      (Stuck(c, s) ==>
        s.client.done == k && s.client.error == Some(Response(BPR_ERR, BPE_CRC)) &&
        s.phase == Reading([]) && s.toPi == [] && s.toPc == [] &&
        s.mem == Write(EffectAll(c.script[..k], c.mem), r.address, c.packets[k].data))
  {
    GoodPasses(c, k);
    DamagedAnswer(c, k, p);
    FirstFailure(c, k, acts);
  }

  lemma DamagedAnswer(c: Config, k: nat, p: nat)
    requires WellFormed(c) && k < |c.script|
    requires var r := c.script[k]; r.Load? && InRange(c.area, r) && CrcProperties.Burst(r.data, c.packets[k].data, p)
    ensures AnswerAt(c, k) == Response(BPR_ERR, BPE_CRC) && !PassesAt(c, k)
    ensures Fits(c.area, c.packets[k].hdr) && EndPhase(c, k + 1) == Reading([])
    ensures MemBefore(c, k + 1) == Write(MemBefore(c, k), c.script[k].address, c.packets[k].data)
  {
    var r := c.script[k];
    assert Arrives(r, c.packets[k]);
    CrcProperties.BurstDetected(0, r.data, c.packets[k].data, p);
    LoadAnswer(c.area, r, c.packets[k].data);
  }
}
