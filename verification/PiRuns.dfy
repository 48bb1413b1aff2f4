/** The command loop over the bytes of a whole list of requests. */
module PiRuns {
  import opened Bytes
  import opened Memory
  import opened Protocol
  import opened Pi

  /** Requests that the Pi accepts and comes back from. */
  predicate Served(area: Area, r: Request) {
    Sendable(r) && InRange(area, r) && !r.Exec?
  }

  predicate AllServed(area: Area, script: seq<Request>) {
    AllSendable(script) &&
    (script == [] || (Served(area, script[|script| - 1]) && AllServed(area, script[..|script| - 1])))
  }

  function Replies(script: seq<Request>): seq<byte> {
    if script == [] then [] else Replies(script[..|script| - 1]) + EncodeResponse(Expected(script[|script| - 1]))
  }

  /** One request in front of whatever follows it. */
  lemma TurnOfRequest(area: Area, mem: Memory, r: Request, rest: seq<byte>, arrivals: seq<nat>)
    requires Served(area, r)
    ensures OneTurn(area, mem, Frame(r) + rest, arrivals)
         == More(Effect(r, mem), EncodeResponse(Expected(r)), rest, arrivals)
  {
    var rx, d, h := Frame(r) + rest, PayloadOf(r), HeaderOf(r);
    Pieces(EncodeHeader(h), d, rest);
    HeaderRoundTrip(h);
    RequestAnswered(area, r, mem);
  }

  lemma Pieces(head: seq<byte>, d: seq<byte>, rest: seq<byte>)
    requires |head| == HEADER_SIZE
    ensures var rx := head + d + rest;
      rx[..HEADER_SIZE] == head && rx[HEADER_SIZE..][..|d|] == d && rx[HEADER_SIZE..][|d|..] == rest
  {
  }

  /**
   The command loop carries out every request in order and answers it once, then goes on with what
   follows: how the bytes were cut into packets is never lost.
   */
  lemma {:induction false} ServeFrames(area: Area, mem: Memory, script: seq<Request>, rest: seq<byte>,
                                       arrivals: seq<nat>)
    requires AllServed(area, script)
    ensures Serve(area, mem, Frames(script) + rest, arrivals)
         == Prepend(Replies(script), Serve(area, EffectAll(script, mem), rest, arrivals))
    decreases |script|
  {
    if script == [] {
      assert Frames(script) + rest == rest;
      var s := Serve(area, mem, rest, arrivals);
      PrependNothing(s);
    } else {
      var k := |script| - 1;
      var r, m := script[k], EffectAll(script[..k], mem);
      Regrouped(Frames(script[..k]), Frame(r), rest);
      ServeFrames(area, mem, script[..k], Frame(r) + rest, arrivals);
      TurnOfRequest(area, m, r, rest, arrivals);
      ServeMore(area, m, Frame(r) + rest, arrivals, More(Effect(r, m), EncodeResponse(Expected(r)), rest, arrivals));
      PrependTwice(Replies(script[..k]), EncodeResponse(Expected(r)), Serve(area, Effect(r, m), rest, arrivals));
    }
  }

  /** Requests that the Pi accepts; from all but the last it comes back. */
  predicate AllAnswered(area: Area, script: seq<Request>) {
    AllSendable(script) &&
    (script == [] || (InRange(area, script[|script| - 1]) && AllServed(area, script[..|script| - 1])))
  }

  /** Where the Pi is after that: in the program, if the last request starts it. */
  function EndOutcome(script: seq<Request>): Outcome {
    if script != [] && script[|script| - 1].Exec? then
      Started(script[|script| - 1].address, !script[|script| - 1].noWatchdog)
    else InHeader([])
  }

  lemma ExecTurn(area: Area, mem: Memory, head: seq<byte>, h: Header, arrivals: seq<nat>)
    requires |head| == HEADER_SIZE && DecodeHeader(head) == h && h.pType == BPT_EXEC
    ensures Serve(area, mem, head, arrivals)
         == Service(mem, EncodeResponse(Answer(area, h, [])), Started(h.address, h.flags & BPF_NOWD == 0))
  {
    assert head[..HEADER_SIZE] == head && head[HEADER_SIZE..] == [];
  }

  /** EXEC is answered, and nothing behind it is read any more. */
  lemma ExecServed(area: Area, mem: Memory, r: Request, arrivals: seq<nat>)
    requires r.Exec?
    ensures Serve(area, mem, Frame(r), arrivals)
         == Service(mem, EncodeResponse(Expected(r)), Started(r.address, !r.noWatchdog))
  {
    var h := HeaderOf(r);
    HeaderRoundTrip(h);
    RequestAnswered(area, r, mem);
    EmptyEnds(EncodeHeader(h));
    ExecTurn(area, mem, EncodeHeader(h), h, arrivals);
    assert h.flags & BPF_NOWD == if r.noWatchdog then BPF_NOWD else 0;
  }

  lemma ServedAll(area: Area, mem: Memory, script: seq<Request>)
    requires AllServed(area, script)
    ensures Serve(area, mem, Frames(script), []) == Service(EffectAll(script, mem), Replies(script), InHeader([]))
  {
    ServeFrames(area, mem, script, [], []);
    assert Frames(script) + [] == Frames(script) && Replies(script) + [] == Replies(script);
    assert Serve(area, EffectAll(script, mem), [], []).tx == [];
  }

  /** All of the requests are carried out and answered, also a last one that starts the program. */
  lemma AnsweredServed(area: Area, mem: Memory, script: seq<Request>)
    requires AllAnswered(area, script)
    ensures Serve(area, mem, Frames(script), [])
         == Service(EffectAll(script, mem), Replies(script), EndOutcome(script))
  {
    if script != [] && script[|script| - 1].Exec? {
      var k := |script| - 1;
      ServeFrames(area, mem, script[..k], Frame(script[k]), []);
      ExecServed(area, EffectAll(script[..k], mem), script[k], []);
    } else {
      ServedAll(area, mem, script);
    }
  }

  /** Only the header of a refused request is taken: the loop goes on with whatever is behind it. */
  lemma RefusedHeader(area: Area, mem: Memory, r: Request, q: seq<byte>, arrivals: seq<nat>)
    requires Sendable(r) && !InRange(area, r)
    ensures Serve(area, mem, EncodeHeader(HeaderOf(r)) + q, arrivals)
         == Prepend(EncodeResponse(Response(BPR_ERR, BPE_OVR)), Serve(area, mem, q, arrivals))
  {
    var h := HeaderOf(r);
    Pieces(EncodeHeader(h), [], q);
    assert EncodeHeader(h) + [] + q == EncodeHeader(h) + q;
    HeaderRoundTrip(h);
    RequestAnswered(area, r, mem);
    ServeMore(area, mem, EncodeHeader(h) + q, arrivals,
              More(mem, EncodeResponse(Response(BPR_ERR, BPE_OVR)), q, arrivals));
  }

  /** The data of a refused LOAD stays on the line: the command loop goes on to take it for packets. */
  lemma RefusedData(area: Area, mem: Memory, r: Request, rest: seq<byte>, arrivals: seq<nat>)
    requires Sendable(r) && !InRange(area, r)
    ensures Serve(area, mem, Frame(r) + rest, arrivals)
         == Prepend(EncodeResponse(Response(BPR_ERR, BPE_OVR)), Serve(area, mem, PayloadOf(r) + rest, arrivals))
  {
    RefusedHeader(area, mem, r, PayloadOf(r) + rest, arrivals);
    Regrouped(EncodeHeader(HeaderOf(r)), PayloadOf(r), rest);
  }

  /** So a refused request can change memory after all, when its data spells a packet of its own. */
  lemma RefusedCanWrite(area: Area, mem: Memory, a: u32, b: u32, n: u32)
    requires !Accepts(area, a, HEADER_SIZE) && Accepts(area, b, n)
    ensures var r := Load(a, Frame(Zero(b, n, true)));
      !InRange(area, r) &&
      Serve(area, mem, Frame(r), []).mem == Effect(Zero(b, n, true), mem)
  {
    var z := Zero(b, n, true);
    var r := Load(a, Frame(z));
    RefusedData(area, mem, r, [], []);
    assert Frame(r) + [] == Frame(r) && PayloadOf(r) + [] == Frame(z) && Frame(z) + [] == Frame(z);
    TurnOfRequest(area, mem, z, [], []);
    ServeMore(area, mem, Frame(z), [], More(Effect(z, mem), EncodeResponse(Expected(z)), [], []));
  }

  /** A packet of unknown type is answered with the error that names it, and with it goes all that has arrived. */
  lemma UnknownServed(area: Area, mem: Memory, x: seq<byte>, arrivals: seq<nat>)
    requires |x| >= HEADER_SIZE && !IsKnown(DecodeHeader(x[..HEADER_SIZE]).pType)
    requires arrivals != [] && arrivals[0] >= |x|
    ensures Serve(area, mem, x, arrivals)
         == Service(mem, EncodeResponse(Response(BPR_ERR, DecodeHeader(x[..HEADER_SIZE]).pType)), InHeader([]))
  {
    var o, rest := EncodeResponse(Response(BPR_ERR, DecodeHeader(x[..HEADER_SIZE]).pType)), x[HEADER_SIZE..];
    assert rest[Least(arrivals[0], |rest|)..] == [];
    ServeMore(area, mem, x, arrivals, More(mem, o, [], arrivals[1..]));
    assert o + [] == o;
  }
}
