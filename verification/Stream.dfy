/** Which packets the command loop takes from a stream, by the four bytes that name their types. */
module Stream {
  import opened Bytes
  import opened Memory
  import opened Protocol
  import opened Pi
  import opened PiRuns
  import opened Wire

  /** The types of the packets, in order. */
  function TypesTaken(area: Area, mem: Memory, rx: seq<byte>, arrivals: seq<nat>): seq<seq<byte>>
    decreases |rx|
  {
    if |rx| < HEADER_SIZE then []
    else
      [rx[..4]] +
      match OneTurn(area, mem, rx, arrivals)
      case Last(_) => []
      case More(mem', _, rx', arrivals') => TypesTaken(area, mem', rx', arrivals')
  }

  /** The types of the requests. */
  function TypesOf(script: seq<Request>): (t: seq<seq<byte>>)
    ensures |t| == |script|
  {
    seq(|script|, j requires 0 <= j < |script| => TypeBytes(script[j]))
  }

  lemma TypesJoined(s: seq<Request>, t: seq<Request>)
    ensures TypesOf(s + t) == TypesOf(s) + TypesOf(t)
  {
  }

  lemma FirstType(r: Request, rest: seq<byte>)
    requires Sendable(r)
    ensures (Frame(r) + rest)[..4] == TypeBytes(r)
  {
    FrameBytes(r);
    assert (Frame(r) + rest)[..4] == Frame(r)[..4];
  }

  lemma TypeTaken(area: Area, mem: Memory, r: Request, rest: seq<byte>, arrivals: seq<nat>)
    requires Served(area, r)
    ensures TypesTaken(area, mem, Frame(r) + rest, arrivals)
         == [TypeBytes(r)] + TypesTaken(area, Effect(r, mem), rest, arrivals)
  {
    TurnOfRequest(area, mem, r, rest, arrivals);
    FirstType(r, rest);
  }

  lemma LastTypes(script: seq<Request>) returns (s: seq<Request>, r: Request)
    requires script != []
    ensures s == script[..|script| - 1] && r == script[|script| - 1] && script == s + [r]
    ensures TypesOf(script) == TypesOf(s) + [TypeBytes(r)]
  {
    s, r := script[..|script| - 1], script[|script| - 1];
    assert TypesOf([r]) == [TypeBytes(r)];
    TypesJoined(s, [r]);
  }

  /** Of the frames of accepted requests the loop takes exactly these. */
  lemma {:induction false} TypesServed(area: Area, mem: Memory, script: seq<Request>, rest: seq<byte>,
                                       arrivals: seq<nat>)
    requires AllServed(area, script)
    ensures TypesTaken(area, mem, Frames(script) + rest, arrivals)
         == TypesOf(script) + TypesTaken(area, EffectAll(script, mem), rest, arrivals)
    decreases |script|
  {
    if script == [] {
      EmptyEnds(rest);
      EmptyEnds(TypesTaken(area, mem, rest, arrivals));
    } else {
      var s, r := LastTypes(script);
      Regrouped(Frames(s), Frame(r), rest);
      TypesServed(area, mem, s, Frame(r) + rest, arrivals);
      TypeTaken(area, EffectAll(s, mem), r, rest, arrivals);
      Regrouped(TypesOf(s), [TypeBytes(r)], TypesTaken(area, EffectAll(script, mem), rest, arrivals));
    }
  }

  lemma ExecTaken(area: Area, mem: Memory, r: Request, arrivals: seq<nat>)
    requires r.Exec?
    ensures TypesTaken(area, mem, Frame(r), arrivals) == [TypeBytes(r)]
  {
    FirstType(r, []);
    EmptyEnds(Frame(r));
    HeaderRoundTrip(HeaderOf(r));
    EmptyEnds(EncodeHeader(HeaderOf(r)));
    assert Frame(r)[..HEADER_SIZE] == EncodeHeader(HeaderOf(r));
  }

  /** The same when the last request starts a program. */
  lemma TypesAnswered(area: Area, mem: Memory, script: seq<Request>)
    requires AllAnswered(area, script)
    ensures TypesTaken(area, mem, Frames(script), []) == TypesOf(script)
  {
    if script != [] && script[|script| - 1].Exec? {
      var s, r := LastTypes(script);
      TypesServed(area, mem, s, Frame(r), []);
      ExecTaken(area, EffectAll(s, mem), r, []);
    } else {
      TypesServed(area, mem, script, [], []);
      EmptyEnds(Frames(script));
      EmptyEnds(TypesOf(script));
    }
  }
}
