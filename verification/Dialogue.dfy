/** The client and the command loop speak the same protocol. */
module Dialogue {
  import opened Bytes
  import opened Memory
  import opened Protocol
  import opened Bootproto
  import opened PiRuns
  import Pi

  lemma OneReply(r: Request, reply: seq<byte>, rest: seq<byte>)
    requires reply == EncodeResponse(Expected(r))
    ensures Exchange(r, reply + rest) == Exchanged([r], true, rest)
  {
    assert (reply + rest)[..RESPONSE_SIZE] == reply && (reply + rest)[RESPONSE_SIZE..] == rest;
    ResponseRoundTrip(Expected(r));
    HopedDecoded(r, reply);
  }

  lemma RepliesNext(script: seq<Request>) returns (s: seq<Request>, r: Request, a: seq<byte>, reply: seq<byte>)
    requires script != []
    ensures script == s + [r] && |s| < |script| && reply == EncodeResponse(Expected(r))
    ensures a == Replies(s) && Replies(script) == a + reply
  {
    var k := |script| - 1;
    s, r := script[..k], script[k];
    a, reply := Replies(s), EncodeResponse(Expected(r));
  }

  /** The client accepts, one by one, the replies that the Pi gives. */
  lemma {:induction false} RepliesAccepted(script: seq<Request>, rest: seq<byte>)
    ensures ExchangeAll(script, Replies(script) + rest) == Exchanged(script, true, rest)
    decreases |script|
  {
    if script == [] {
      assert Replies(script) + rest == rest;
    } else {
      var s, r, a, reply := RepliesNext(script);
      Regrouped(a, reply, rest);
      RepliesAccepted(s, reply + rest);
      OneMore(s, r, a + (reply + rest), reply + rest);
      OneReply(r, reply, rest);
    }
  }

  /**
   What the client writes for a list of requests that the Pi accepts, also one that ends with EXEC, the Pi
   carries out in full; what it answers, the client takes as success, to the last byte.
   */
  lemma ClientMeetsPi(area: Area, mem: Memory, script: seq<Request>)
    requires AllAnswered(area, script)
    ensures var s := Pi.Serve(area, mem, Frames(script), []);
      s.mem == EffectAll(script, mem) && s.outcome == EndOutcome(script) &&
      ExchangeAll(script, s.tx) == Exchanged(script, true, [])
  {
    AnsweredServed(area, mem, script);
    RepliesAccepted(script, []);
    assert Replies(script) + [] == Replies(script);
  }
}
