/**
 Schedules in which the delay before the line is drained is long enough (raspi/bootrpi.c, lines 105-119): there
 always is one, and each drain of it takes all that is left.
 */
module SessionTimely {
  import opened Bytes
  import opened Protocol
  import opened Session
  import opened SessionProgress
  import opened PiSteps
  import opened ClientSteps

  // ---------- Timely schedules exist ----------

  lemma JoinedTail<T>(s: seq<T>, t: seq<T>)
    requires s != []
    ensures (s + t)[0] == s[0] && (s + t)[1..] == s[1..] + t
  {
  }

  lemma {:induction false} JoinSchedules(c: Config, s: System, acts: seq<Action>, more: seq<Action>)
    requires WellFormed(c) && Valid(c, s, acts) && Valid(c, After(c, s, acts), more)
    requires Timely(c, s, acts) && Timely(c, After(c, s, acts), more)
    ensures Valid(c, s, acts + more) && After(c, s, acts + more) == After(c, After(c, s, acts), more)
    ensures Timely(c, s, acts + more)
    decreases |acts|
  {
    if acts == [] {
      assert acts + more == more;
    } else {
      JoinedTail(acts, more);
      JoinSchedules(c, Do(c, s, acts[0]), acts[1..], more);
    }
  }

  /** Where some step is enabled, so is one that is timely: the client may write before the line is drained. */
  lemma TimelyStep(c: Config, s: System) returns (a: Action)
    requires WellFormed(c) && !Stuck(c, s)
    ensures Enabled(c, s, a) && (Drains(s, a) ==> !Enabled(c, s, ClientWrites))
  {
    if Enabled(c, s, ClientWrites) { return ClientWrites; }
    a :| Enabled(c, s, a);
  }

  lemma {:induction false} TimelyEnd(c: Config, s: System) returns (acts: seq<Action>)
    requires WellFormed(c) && WellSent(c, s)
    ensures Valid(c, s, acts) && Timely(c, s, acts) && Stuck(c, After(c, s, acts))
    decreases Measure(c, s)
  {
    if Stuck(c, s) { return []; }
    var a := TimelyStep(c, s);
    MeasureDrops(c, s, a);
    var rest := TimelyEnd(c, Do(c, s, a));
    acts := [a] + rest;
    assert acts[1..] == rest;
  }

  lemma {:induction false} StaysWellSent(c: Config, s: System, acts: seq<Action>)
    requires WellFormed(c) && WellSent(c, s) && Valid(c, s, acts)
    ensures WellSent(c, After(c, s, acts))
    decreases |acts|
  {
    if acts != [] {
      MeasureDrops(c, s, acts[0]);
      StaysWellSent(c, Do(c, s, acts[0]), acts[1..]);
    }
  }

  /** Every timely schedule goes on, timely, to a state in which neither process can do anything more. */
  lemma TimelyExtends(c: Config, s: System, acts: seq<Action>) returns (more: seq<Action>)
    requires WellFormed(c) && WellSent(c, s) && Valid(c, s, acts) && Timely(c, s, acts)
    ensures Valid(c, s, acts + more) && Timely(c, s, acts + more) && Stuck(c, After(c, s, acts + more))
  {
    StaysWellSent(c, s, acts);
    more := TimelyEnd(c, After(c, s, acts));
    JoinSchedules(c, s, acts, more);
  }

  // ---------- What timely drains take ----------

  /** After a drain the client writes nothing more. */
  predicate LastWords(c: Config, s: System, acts: seq<Action>)
    requires WellFormed(c) && Valid(c, s, acts)
    decreases |acts|
  {
    acts == [] ||
    ((Drains(s, acts[0]) ==> Sent(c, Do(c, s, acts[0]), acts[1..]) == []) &&
     LastWords(c, Do(c, s, acts[0]), acts[1..]))
  }

  function Many(length: nat, n: nat): seq<nat> {
    seq(length, _ => n)
  }

  lemma {:induction false} ManyAgrees(c: Config, s: System, acts: seq<Action>, length: nat, n: nat)
    requires WellFormed(c) && WellSent(c, s) && Valid(c, s, acts) && LastWords(c, s, acts)
    requires |acts| <= length && Measure(c, s) <= n
    ensures Agrees(c, s, acts, Many(length, n))
    decreases |acts|
  {
    if acts != [] {
      var t, rest := Do(c, s, acts[0]), acts[1..];
      MeasureDrops(c, s, acts[0]);
      if Drains(s, acts[0]) {
        assert s.toPi + Sent(c, t, rest) == s.toPi;
        assert Many(length, n)[1..] == Many(length - 1, n);
        ManyAgrees(c, t, rest, length - 1, n);
      } else {
        ManyAgrees(c, t, rest, length, n);
      }
    }
  }

  /** Numbers so large that every drain from s on takes all that is left. */
  function Flood(c: Config, s: System): seq<nat>
    requires WellFormed(c) && WellSent(c, s)
  {
    Many(Measure(c, s), Measure(c, s))
  }

  /** The line is drained only when the client has come as far as request k. */
  predicate DrainsFrom(c: Config, s: System, acts: seq<Action>, k: nat)
    requires WellFormed(c) && Valid(c, s, acts)
    decreases |acts|
  {
    acts == [] ||
    ((Drains(s, acts[0]) ==> s.client.done >= k) && DrainsFrom(c, Do(c, s, acts[0]), acts[1..], k))
  }

  lemma {:induction false} WireGrows(c: Config, i: nat, k: nat)
    requires WellFormed(c) && i <= k <= |c.script|
    ensures |WireFrames(c, i)| <= |WireFrames(c, k)|
    decreases k
  {
    if i < k { WireGrows(c, i, k - 1); }
  }

  /** A client that has written all of request k, and does not get past it, writes nothing more. */
  lemma NothingMoreWritten(c: Config, k: nat, u: ClientState, t: ClientState, a: seq<byte>, b: seq<byte>,
                           sent: seq<byte>)
    requires WellFormed(c) && k < |c.script| && ClientInv(c, u, a) && ClientInv(c, t, b)
    requires k <= u.done && (u.done < |c.script| ==> u.sent == |c.packets[u.done].frame|)
    requires t.done <= k || k + 1 == |c.script|
    requires Written(c, t) == Written(c, u) + sent
    ensures sent == []
  {
    WireGrows(c, k + 1, if u.done < |c.script| then u.done + 1 else u.done);
    if u.done < |c.script| { FrameDone(c, u); }
    WireGrows(c, if t.done < |c.script| then t.done + 1 else t.done, k + 1);
  }

  lemma {:induction false} TimelyLastWords(c: Config, s: System, acts: seq<Action>, k: nat, a: seq<byte>)
    requires WellFormed(c) && Valid(c, s, acts) && Timely(c, s, acts) && k < |c.script| && ClientInv(c, s.client, a)
    requires DrainsFrom(c, s, acts, k)
    requires After(c, s, acts).client.done <= k || k + 1 == |c.script|
    ensures LastWords(c, s, acts)
    decreases |acts|
  {
    if acts != [] {
      var t, rest := Do(c, s, acts[0]), acts[1..];
      var b := ClientStep(c, s, acts[0], a);
      if Drains(s, acts[0]) {
        var d := ClientRun(c, t, rest, b);
        NothingMoreWritten(c, k, s.client, After(c, t, rest).client, a, d, Sent(c, t, rest));
      }
      TimelyLastWords(c, t, rest, k, b);
    }
  }

  /** A timely schedule throws away all that is left, each time. */
  lemma TimelyAgrees(c: Config, s: System, acts: seq<Action>, k: nat)
    requires WellFormed(c) && WellSent(c, s) && Valid(c, s, acts) && Timely(c, s, acts) && k < |c.script|
    requires s.client == RESTART && DrainsFrom(c, s, acts, k)
    requires After(c, s, acts).client.done <= k || k + 1 == |c.script|
    ensures Agrees(c, s, acts, Flood(c, s))
  {
    SchedulesEnd(c, s, acts);
    TimelyLastWords(c, s, acts, k, []);
    ManyAgrees(c, s, acts, Measure(c, s), Measure(c, s));
  }
}
