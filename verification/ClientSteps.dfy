/** The client that works byte by byte does what the client that exchanges whole requests does. */
module ClientSteps {
  import opened Wrappers
  import opened Bytes
  import opened Protocol
  import opened Session
  import opened Bootproto

  /** A is one whole reply to each of the first k requests, all of them as hoped. */
  ghost predicate Replied(script: seq<Request>, k: nat, a: seq<byte>)
    requires k <= |script|
  {
    if k == 0 then a == []
    else
      |a| >= RESPONSE_SIZE && Hoped(script[k - 1], a[|a| - RESPONSE_SIZE..]) &&
      Replied(script, k - 1, a[..|a| - RESPONSE_SIZE])
  }

  lemma ReplyTaken(r: Request, reply: seq<byte>, rest: seq<byte>)
    requires |reply| == RESPONSE_SIZE && Hoped(r, reply)
    ensures Exchange(r, reply + rest) == Exchanged([r], true, rest)
  {
    assert (reply + rest)[..RESPONSE_SIZE] == reply && (reply + rest)[RESPONSE_SIZE..] == rest;
  }

  lemma LastReply(script: seq<Request>, k: nat, a: seq<byte>)
      returns (s: seq<Request>, r: Request, a0: seq<byte>, reply: seq<byte>)
    requires 0 < k <= |script| && Replied(script, k, a)
    ensures s == script[..k - 1] && r == script[k - 1] && script[..k] == s + [r]
    ensures a == a0 + reply && |reply| == RESPONSE_SIZE && Replied(script, k - 1, a0) && Hoped(r, reply)
  {
    s, r := script[..k - 1], script[k - 1];
    a0, reply := a[..|a| - RESPONSE_SIZE], a[|a| - RESPONSE_SIZE..];
  }

  lemma NextReply(script: seq<Request>, k: nat, a: seq<byte>, reply: seq<byte>)
    requires k < |script| && Replied(script, k, a) && |reply| == RESPONSE_SIZE && Hoped(script[k], reply)
    ensures Replied(script, k + 1, a + reply)
  {
    var b := a + reply;
    assert b[..|b| - RESPONSE_SIZE] == a && b[|b| - RESPONSE_SIZE..] == reply;
  }

  /** The client takes these replies, one by one, and leaves what follows them. */
  lemma {:induction false} RepliesTaken(script: seq<Request>, k: nat, a: seq<byte>, rest: seq<byte>)
    requires k <= |script| && Replied(script, k, a)
    ensures ExchangeAll(script[..k], a + rest) == Exchanged(script[..k], true, rest)
  {
    if k == 0 {
      assert a + rest == rest && script[..k] == [];
    } else {
      var s, r, a0, reply := LastReply(script, k, a);
      Regrouped(a0, reply, rest);
      RepliesTaken(script, k - 1, a0, reply + rest);
      OneMoreTaken(s, r, a + rest, reply, rest);
    }
  }

  lemma OneMoreTaken(s: seq<Request>, r: Request, rx: seq<byte>, reply: seq<byte>, rest: seq<byte>)
    requires ExchangeAll(s, rx) == Exchanged(s, true, reply + rest)
    requires |reply| == RESPONSE_SIZE && Hoped(r, reply)
    ensures ExchangeAll(s + [r], rx) == Exchanged(s + [r], true, rest)
  {
    OneMore(s, r, rx, reply + rest);
    ReplyTaken(r, reply, rest);
  }

  /** The frames of the first k requests, as they arrive. */
  function WireFrames(c: Config, k: nat): seq<byte>
    requires WellFormed(c) && k <= |c.script|
  {
    if k == 0 then [] else WireFrames(c, k - 1) + c.packets[k - 1].frame
  }

  /** What the client has written so far. */
  function Written(c: Config, cl: ClientState): seq<byte>
    requires WellFormed(c) && cl.done <= |c.script|
  {
    if cl.done < |c.script| && cl.sent <= |c.packets[cl.done].frame| then
      WireFrames(c, cl.done) + c.packets[cl.done].frame[..cl.sent]
    else WireFrames(c, cl.done)
  }

  /** The client has read a and then what it has got: all is as hoped, but for the last answer perhaps. */
  ghost predicate ClientInv(c: Config, cl: ClientState, a: seq<byte>)
    requires WellFormed(c)
  {
    cl.done <= |c.script| && Replied(c.script, cl.done, a) &&
    if cl.done == |c.script| then cl == ClientState(cl.done, 0, [], None)
    else
      cl.sent <= |c.packets[cl.done].frame| && (cl.got != [] ==> cl.sent == |c.packets[cl.done].frame|) &&
      if cl.error == None then |cl.got| < RESPONSE_SIZE
      else
        |cl.got| == RESPONSE_SIZE && cl.error.value == DecodeResponse(cl.got) && !Hoped(c.script[cl.done], cl.got)
  }

  /** All the client has been or will be given to read. */
  function Incoming(s: System, a: seq<byte>): seq<byte> {
    a + s.client.got + s.toPc
  }

  lemma OneByteRead(a: seq<byte>, got: seq<byte>, q: seq<byte>)
    requires q != []
    ensures a + got + q == a + (got + [q[0]]) + q[1..]
  {
    assert q == [q[0]] + q[1..];
  }

  /** A byte that does not end a response. */
  lemma ReadMore(c: Config, s: System, a: seq<byte>)
    requires WellFormed(c) && Enabled(c, s, ClientReads) && ClientInv(c, s.client, a)
    requires |s.client.got| + 1 < RESPONSE_SIZE
    ensures var t := Do(c, s, ClientReads);
      ClientInv(c, t.client, a) && t.client == s.client.(got := s.client.got + [s.toPc[0]]) &&
      Written(c, t.client) == Written(c, s.client)
  {
  }

  lemma PassClient(c: Config, s: System, got: seq<byte>)
    requires WellFormed(c) && Enabled(c, s, ClientReads)
    requires got == s.client.got + [s.toPc[0]] && |got| == RESPONSE_SIZE && Hoped(c.script[s.client.done], got)
    ensures Do(c, s, ClientReads).client == ClientState(s.client.done + 1, 0, [], None)
  {
    HopedDecoded(c.script[s.client.done], got);
    assert got[..RESPONSE_SIZE] == got;
  }

  /** A byte that makes a response whole, as hoped. */
  lemma ReadPass(c: Config, s: System, a: seq<byte>, got: seq<byte>)
    requires WellFormed(c) && Enabled(c, s, ClientReads) && ClientInv(c, s.client, a)
    requires got == s.client.got + [s.toPc[0]] && |got| == RESPONSE_SIZE && Hoped(c.script[s.client.done], got)
    ensures var t := Do(c, s, ClientReads);
      ClientInv(c, t.client, a + got) && t.client.got == [] && Written(c, t.client) == Written(c, s.client)
  {
    PassClient(c, s, got);
    NextReply(c.script, s.client.done, a, got);
    FrameDone(c, s.client);
  }

  /** A byte that makes a response whole, not as hoped. */
  lemma ReadFail(c: Config, s: System, a: seq<byte>, got: seq<byte>)
    requires WellFormed(c) && Enabled(c, s, ClientReads) && ClientInv(c, s.client, a)
    requires got == s.client.got + [s.toPc[0]] && |got| == RESPONSE_SIZE && !Hoped(c.script[s.client.done], got)
    ensures var t := Do(c, s, ClientReads);
      ClientInv(c, t.client, a) && t.client == s.client.(got := got, error := Some(DecodeResponse(got))) &&
      Written(c, t.client) == Written(c, s.client)
  {
    HopedDecoded(c.script[s.client.done], got);
    assert got[..RESPONSE_SIZE] == got;
  }

  lemma FrameDone(c: Config, cl: ClientState)
    requires WellFormed(c) && cl.done < |c.script| && cl.sent == |c.packets[cl.done].frame|
    ensures Written(c, cl) == WireFrames(c, cl.done + 1)
    ensures Written(c, ClientState(cl.done + 1, 0, [], None)) == WireFrames(c, cl.done + 1)
  {
    var k := cl.done;
    assert c.packets[k].frame[..cl.sent] == c.packets[k].frame;
    if k + 1 < |c.script| {
      var w := WireFrames(c, k + 1);
      assert w + c.packets[k + 1].frame[..0] == w;
    }
  }

  lemma ReadInv(c: Config, s: System, a: seq<byte>) returns (a': seq<byte>)
    requires WellFormed(c) && Enabled(c, s, ClientReads) && ClientInv(c, s.client, a)
    ensures var t := Do(c, s, ClientReads);
      ClientInv(c, t.client, a') && Incoming(t, a') == Incoming(s, a) && Written(c, t.client) == Written(c, s.client)
  {
    var got := s.client.got + [s.toPc[0]];
    OneByteRead(a, s.client.got, s.toPc);
    a' := a;
    if |got| < RESPONSE_SIZE {
      ReadMore(c, s, a);
    } else if Hoped(c.script[s.client.done], got) {
      ReadPass(c, s, a, got);
      a' := a + got;
      EmptyEnds(a');
    } else {
      ReadFail(c, s, a, got);
    }
  }

  lemma WriteInv(c: Config, s: System, a: seq<byte>)
    requires WellFormed(c) && Enabled(c, s, ClientWrites) && ClientInv(c, s.client, a)
    ensures var t := Do(c, s, ClientWrites);
      ClientInv(c, t.client, a) && Incoming(t, a) == Incoming(s, a) &&
      Written(c, t.client) == Written(c, s.client) + [c.packets[s.client.done].frame[s.client.sent]]
  {
    var f, n, w := c.packets[s.client.done].frame, s.client.sent, WireFrames(c, s.client.done);
    assert f[..n + 1] == f[..n] + [f[n]];
    assert w + (f[..n] + [f[n]]) == w + f[..n] + [f[n]];
  }

  /** One step: what it writes and what it is given to read. */
  lemma ClientStep(c: Config, s: System, act: Action, a: seq<byte>) returns (a': seq<byte>)
    requires WellFormed(c) && Enabled(c, s, act) && ClientInv(c, s.client, a)
    ensures var t := Do(c, s, act);
      ClientInv(c, t.client, a') &&
      Incoming(t, a') == (if act == PiWrites then Incoming(s, a) + [s.phase.out[0]] else Incoming(s, a)) &&
      Written(c, t.client) ==
        if act == ClientWrites then Written(c, s.client) + [c.packets[s.client.done].frame[s.client.sent]]
        else Written(c, s.client)
  {
    a' := a;
    match act
    case ClientWrites => WriteInv(c, s, a);
    case ClientReads => a' := ReadInv(c, s, a);
    case PiWrites => assert Incoming(s, a) + [s.phase.out[0]] == a + s.client.got + (s.toPc + [s.phase.out[0]]);
    case PiReads =>
    case PiHandles =>
  }

  /** The same over a whole schedule. */
  lemma {:induction false} ClientRun(c: Config, s: System, acts: seq<Action>, a: seq<byte>) returns (a': seq<byte>)
    requires WellFormed(c) && Valid(c, s, acts) && ClientInv(c, s.client, a)
    ensures var t := After(c, s, acts);
      ClientInv(c, t.client, a') && Incoming(t, a') == Incoming(s, a) + Emitted(c, s, acts) &&
      Written(c, t.client) == Written(c, s.client) + Sent(c, s, acts)
    decreases |acts|
  {
    if acts == [] {
      EmptyEnds(Incoming(s, a));
      EmptyEnds(Written(c, s.client));
      return a;
    }
    var t := Do(c, s, acts[0]);
    var b := ClientStep(c, s, acts[0], a);
    a' := ClientRun(c, t, acts[1..], b);
    StepsJoined(Incoming(s, a), s.phase, acts[0] == PiWrites, Incoming(t, b), Emitted(c, t, acts[1..]));
    if acts[0] == ClientWrites {
      var b := c.packets[s.client.done].frame[s.client.sent];
      Regrouped(Written(c, s.client), [b], Sent(c, t, acts[1..]));
    }
  }

  lemma StepsJoined(x: seq<byte>, phase: Phase, writes: bool, x': seq<byte>, z: seq<byte>)
    requires writes ==> phase.Replying? && phase.out != []
    requires x' == if writes then x + [phase.out[0]] else x
    ensures x' + z == x + if writes then [phase.out[0]] + z else z
  {
  }

  // ---------- The end ----------

  /** How many requests have been asked, whole, by a client that can do nothing more. */
  function Asked(c: Config, cl: ClientState): nat {
    if cl.done >= |c.script| then |c.script| else cl.done + 1
  }

  lemma ScriptSplit(script: seq<Request>, k: nat, rx: seq<byte>, rest: seq<byte>)
    requires k <= |script| && ExchangeAll(script[..k], rx) == Exchanged(script[..k], true, rest)
    ensures ExchangeAll(script, rx) == Before(script[..k], ExchangeAll(script[k..], rest))
  {
    var x := Exchanged([], true, rx);
    assert script == script[..k] + script[k..];
    ContinueConcat(x, script[..k], script[k..]);
    FromStart(x, script[..k]);
    FromStart(x, script);
  }

  lemma LastExchange(script: seq<Request>, k: nat, rx: seq<byte>, rest: seq<byte>)
    requires k < |script| && ExchangeAll(script[..k], rx) == Exchanged(script[..k], true, rest)
    requires !Exchange(script[k], rest).ok
    ensures ExchangeAll(script, rx) == Exchanged(script[..k + 1], false, Exchange(script[k], rest).rest)
  {
    ScriptSplit(script, k, rx, rest);
    assert script[k..][0] == script[k] && script[..k + 1] == script[..k] + [script[k]];
  }

  /** A client that can do nothing more, given what it was sent. */
  lemma ClientEnds(c: Config, t: System, a: seq<byte>)
    requires WellFormed(c) && ClientInv(c, t.client, a) && Stuck(c, t)
    ensures var x, n := ExchangeAll(c.script, Incoming(t, a)), Asked(c, t.client);
      x == Exchanged(c.script[..n], t.client.done == |c.script|,
                     if t.client.done == |c.script| || t.client.error.Some? then t.toPc else [])
    ensures Written(c, t.client) == WireFrames(c, Asked(c, t.client))
  {
    var k, got := t.client.done, t.client.got;
    assert Incoming(t, a) == a + (got + t.toPc);
    RepliesTaken(c.script, k, a, got + t.toPc);
    assert !Enabled(c, t, ClientWrites) && !Enabled(c, t, ClientReads);
    if k == |c.script| {
      assert c.script[..k] == c.script && [] + t.toPc == t.toPc;
    } else {
      FrameDone(c, t.client);
      if t.client.error.Some? {
        assert (got + t.toPc)[..RESPONSE_SIZE] == got && (got + t.toPc)[RESPONSE_SIZE..] == t.toPc;
      }
      LastExchange(c.script, k, Incoming(t, a), got + t.toPc);
    }
  }

  lemma {:induction false} RepliedLength(script: seq<Request>, k: nat, a: seq<byte>)
    requires k <= |script| && Replied(script, k, a)
    ensures |a| == RESPONSE_SIZE * k
  {
    if k > 0 { RepliedLength(script, k - 1, a[..|a| - RESPONSE_SIZE]); }
  }

  /**
   What the client has asked, and where it stops, are what exchanging whole requests makes of the bytes that
   the Pi has written; and what it has written is the frames of the requests asked.
   */
  lemma StepsRefineExchange(c: Config, s: System, acts: seq<Action>) returns (a: seq<byte>)
    requires WellFormed(c) && Valid(c, s, acts) && Stuck(c, After(c, s, acts))
    requires s.client == RESTART && s.toPc == []
    ensures var t := After(c, s, acts);
      var x := ExchangeAll(c.script, Emitted(c, s, acts));
      x == Exchanged(c.script[..Asked(c, t.client)], t.client.done == |c.script|,
                     if t.client.done == |c.script| || t.client.error.Some? then t.toPc else []) &&
      Sent(c, s, acts) == WireFrames(c, Asked(c, t.client))
    ensures ClientInv(c, After(c, s, acts).client, a) && Incoming(After(c, s, acts), a) == Emitted(c, s, acts)
  {
    if c.script != [] { assert WireFrames(c, 0) + c.packets[0].frame[..0] == []; }
    a := ClientRun(c, s, acts, []);
    ClientEnds(c, After(c, s, acts), a);
    assert [] + [] + [] + Emitted(c, s, acts) == Emitted(c, s, acts) && [] + Sent(c, s, acts) == Sent(c, s, acts);
  }
}
