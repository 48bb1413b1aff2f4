/**
 How the two sides get back in step when the Pi is left holding part of an earlier header, which is what
 handle_unknown is for (raspi/bootrpi.c, lines 105-120).
 */
module Resync {
  import opened Wrappers
  import opened Bytes
  import opened Memory
  import opened Protocol
  import opened Session
  import opened SessionProgress
  import opened Bootproto
  import opened PiSteps
  import opened PiRuns
  import opened ClientSteps
  import opened SessionEnd
  import opened SessionTimely
  import SessionOutcome
  import Pi

  // ---------- The type that the Pi makes up ----------

  lemma CodeBytes(y: seq<byte>, v: bv32)
    requires |y| == 4 && FromLE32(y) == v
    ensures y[1] == ((v >> 8) & 0xFF) as bv8 && y[2] == ((v >> 16) & 0xFF) as bv8 && y[3] == (v >> 24) as bv8
  {
  }

  /** No end of a known code is a beginning of the code of PING. */
  lemma NoOverlap(y: seq<byte>)
    requires |y| == 4 && (y[1] == 0x50 || y[2] == 0x50 || y[3] == 0x50)
    ensures !IsKnown(FromLE32(y))
  {
    CodeBytes(y, FromLE32(y));
  }

  lemma PingCode()
    ensures LE32(BPT_PING)[0] == 0x50
  {
  }

  /** The type read from what is left of an old header and the beginning of a PING. */
  function TypeRead(stale: seq<byte>, f: seq<byte>): bv32
    requires |f| == HEADER_SIZE
  {
    FromLE32((stale + f)[..4])
  }

  lemma ShortStale(stale: seq<byte>, f: seq<byte>)
    requires 0 < |stale| < 4 && |f| == HEADER_SIZE && f[0] == 0x50
    ensures !IsKnown(TypeRead(stale, f))
  {
    NoOverlap((stale + f)[..4]);
  }

  lemma LongStale(stale: seq<byte>, f: seq<byte>)
    requires 4 <= |stale| && |f| == HEADER_SIZE
    ensures TypeRead(stale, f) == FromLE32(stale[..4])
  {
    assert (stale + f)[..4] == stale[..4];
  }

  // ---------- The run ----------

  /** The Pi blocked in the middle of a header, a quiet line, and a client that starts with a PING. */
  function Upset(mem: Memory, stale: seq<byte>): System {
    System(RESTART, Reading(stale), mem, [], [])
  }

  function PingOnly(area: Area, mem: Memory): (c: Config)
    ensures WellFormed(c)
  {
    var c := Config(area, [Ping], [PacketOf(Ping, [])], mem);
    assert Arrives(c.script[0], c.packets[0]);
    c
  }

  function PingFrame(): (f: seq<byte>)
    ensures |f| == HEADER_SIZE && f[0] == 0x50
  {
    PingCode();
    PacketOf(Ping, []).frame
  }

  /** Every way to go on from such a state until neither side can do anything more. */
  predicate UpsetRun(area: Area, mem: Memory, stale: seq<byte>, acts: seq<Action>) {
    var c, s := PingOnly(area, mem), Upset(mem, stale);
    0 < |stale| < HEADER_SIZE && Valid(c, s, acts) && Stuck(c, After(c, s, acts))
  }

  function UpsetEnd(area: Area, mem: Memory, stale: seq<byte>, acts: seq<Action>): System
    requires UpsetRun(area, mem, stale, acts)
  {
    After(PingOnly(area, mem), Upset(mem, stale), acts)
  }

  /** A client that has been given e in answer to its PING. */
  function PingClient(e: seq<byte>): ClientState {
    if |e| < RESPONSE_SIZE then ClientState(0, HEADER_SIZE, e, None)
    else
      var p := DecodeResponse(e[..RESPONSE_SIZE]);
      if p.code == BPR_RDY then ClientState(1, 0, [], None)
      else ClientState(0, HEADER_SIZE, e[..RESPONSE_SIZE], Some(p))
  }

  lemma PingGiven(area: Area, mem: Memory, t: System, a: seq<byte>, e: seq<byte>)
    requires var c := PingOnly(area, mem); Stuck(c, t) && ClientInv(c, t.client, a) && Incoming(t, a) == e
    ensures t.client == PingClient(e) && t.toPc == e[if |e| < RESPONSE_SIZE then |e| else RESPONSE_SIZE..]
  {
    var c, got := PingOnly(area, mem), t.client.got;
    assert !Enabled(c, t, ClientWrites) && !Enabled(c, t, ClientReads);
    RepliedLength(c.script, t.client.done, a);
    assert |c.packets[0].frame| == HEADER_SIZE;
    if t.client.done == 1 {
      assert a == a[..0] + a[0..] && e[..RESPONSE_SIZE] == a && e[RESPONSE_SIZE..] == t.toPc;
      assert a[|a| - RESPONSE_SIZE..] == a;
      HopedDecoded(Ping, a);
    } else if t.client.error.Some? {
      assert e[..RESPONSE_SIZE] == got && e[RESPONSE_SIZE..] == t.toPc;
      HopedDecoded(Ping, got);
    } else {
      assert e == got && e[|e|..] == [];
    }
  }

  /** The end of every run: the loop on what is left of the old header and the PING together. */
  lemma UpsetServed(area: Area, mem: Memory, stale: seq<byte>, acts: seq<Action>, arrivals: seq<nat>)
      returns (t: System, e: seq<byte>)
    requires UpsetRun(area, mem, stale, acts) && Agrees(PingOnly(area, mem), Upset(mem, stale), acts, arrivals)
    ensures t == UpsetEnd(area, mem, stale, acts) && Idle(t)
    ensures Pi.Serve(area, mem, stale + PingFrame(), arrivals) == Pi.Service(t.mem, e, OutcomeOf(t.phase))
    ensures t.client == PingClient(e) && t.toPc == e[if |e| < RESPONSE_SIZE then |e| else RESPONSE_SIZE..]
  {
    var c, n, a := PingOnly(area, mem), 0, [];
    t, n, e, a := StuckEnd(c, Upset(mem, stale), acts, arrivals);
    PingGiven(area, mem, t, a, e);
    assert WireFrames(c, 0) + c.packets[0].frame == PingFrame();
  }

  // ---------- What the Pi makes of it ----------

  function StaleHeader(stale: seq<byte>): Header
    requires |stale| < HEADER_SIZE
  {
    DecodeHeader((stale + PingFrame())[..HEADER_SIZE])
  }

  /** The bytes of the PING that the Pi does not take for a part of the header. */
  function Tail(stale: seq<byte>): (q: seq<byte>)
    requires |stale| < HEADER_SIZE
    ensures |q| == |stale|
  {
    PingFrame()[HEADER_SIZE - |stale|..]
  }

  lemma StreamSplit(stale: seq<byte>)
    requires 0 < |stale| < HEADER_SIZE
    ensures (stale + PingFrame())[HEADER_SIZE..] == Tail(stale)
    ensures StaleHeader(stale).pType == TypeRead(stale, PingFrame())
  {
    assert (stale + PingFrame())[..HEADER_SIZE][..4] == (stale + PingFrame())[..4];
  }

  /** The end for a header of known type: too few bytes are behind it for another. */
  function KnownEnd(area: Area, mem: Memory, h: Header, q: seq<byte>): Pi.Service {
    var n := PayloadSize(area, h);
    if |q| < n then Pi.Service(Write(mem, h.address, q), [], Pi.InData(h, |q|))
    else
      Pi.Service(MemoryAfter(area, h, mem, q[..n]), EncodeResponse(Answer(area, h, q[..n])),
                 if h.pType == BPT_EXEC then Pi.Started(h.address, h.flags & BPF_NOWD == 0) else Pi.InHeader(q[n..]))
  }

  lemma KnownServed(area: Area, mem: Memory, x: seq<byte>, arrivals: seq<nat>)
    requires HEADER_SIZE <= |x| < 2 * HEADER_SIZE && IsKnown(DecodeHeader(x[..HEADER_SIZE]).pType)
    ensures Pi.Serve(area, mem, x, arrivals)
         == KnownEnd(area, mem, DecodeHeader(x[..HEADER_SIZE]), x[HEADER_SIZE..])
  {
    var t := Pi.OneTurn(area, mem, x, arrivals);
    if t.More? {
      Pi.ServeMore(area, mem, x, arrivals, t);
      assert t.reply + [] == t.reply;
    }
  }

  // ---------- In step again, or not ----------

  lemma TypeKnown(stale: seq<byte>)
    requires 0 < |stale| < HEADER_SIZE
    ensures IsKnown(TypeRead(stale, PingFrame())) <==> 4 <= |stale| && IsKnown(FromLE32(stale[..4]))
  {
    if |stale| < 4 { ShortStale(stale, PingFrame()); } else { LongStale(stale, PingFrame()); }
  }

  lemma {:induction false} AlwaysFrom(c: Config, s: System, acts: seq<Action>)
    requires WellFormed(c) && Valid(c, s, acts)
    ensures DrainsFrom(c, s, acts, 0)
    decreases |acts|
  {
    if acts != [] { AlwaysFrom(c, Do(c, s, acts[0]), acts[1..]); }
  }

  lemma FloodAgrees(area: Area, mem: Memory, stale: seq<byte>, acts: seq<Action>)
    requires UpsetRun(area, mem, stale, acts) && Timely(PingOnly(area, mem), Upset(mem, stale), acts)
    ensures var c, s := PingOnly(area, mem), Upset(mem, stale);
      Agrees(c, s, acts, Flood(c, s)) && Flood(c, s) != [] && Flood(c, s)[0] >= |stale| + HEADER_SIZE
  {
    var c, s := PingOnly(area, mem), Upset(mem, stale);
    AlwaysFrom(c, s, acts);
    TimelyAgrees(c, s, acts, 0);
    assert Total(c, 0) == |c.packets[0].frame| + Total(c, 1);
  }

  /** What cannot be read as a packet is answered with an error and thrown away: the Pi is ready, as it was. */
  lemma UnknownStale(area: Area, mem: Memory, stale: seq<byte>, acts: seq<Action>)
    requires UpsetRun(area, mem, stale, acts) && Timely(PingOnly(area, mem), Upset(mem, stale), acts)
    requires !IsKnown(TypeRead(stale, PingFrame()))
    ensures var p := Response(BPR_ERR, TypeRead(stale, PingFrame()));
      UpsetEnd(area, mem, stale, acts)
      == System(ClientState(0, HEADER_SIZE, EncodeResponse(p), Some(p)), Reading([]), mem, [], [])
  {
    var c, s, p := PingOnly(area, mem), Upset(mem, stale), Response(BPR_ERR, TypeRead(stale, PingFrame()));
    FloodAgrees(area, mem, stale, acts);
    StreamSplit(stale);
    UnknownServed(area, mem, stale + PingFrame(), Flood(c, s));
    var t, e := UpsetServed(area, mem, stale, acts, Flood(c, s));
    ErrorGiven(mem, t, e, p);
  }

  lemma ErrorGiven(mem: Memory, t: System, e: seq<byte>, p: Response)
    requires Idle(t) && Pi.Service(t.mem, e, OutcomeOf(t.phase)) == Pi.Service(mem, EncodeResponse(p), Pi.InHeader([]))
    requires t.client == PingClient(e) && t.toPc == e[RESPONSE_SIZE..] && p.code == BPR_ERR
    ensures t == System(ClientState(0, HEADER_SIZE, EncodeResponse(p), Some(p)), Reading([]), mem, [], [])
  {
    ResponseRoundTrip(p);
    assert e[..RESPONSE_SIZE] == e;
  }

  /** No answer to a packet of known type is the error that an unknown type gives. */
  lemma KnownAnswer(area: Area, h: Header, d: seq<byte>, pType: bv32)
    requires IsKnown(h.pType) && IsKnown(pType)
    ensures Answer(area, h, d) != Response(BPR_ERR, pType)
  {
  }

  /** The end t of a run in which the Pi has done v. */
  ghost predicate Ends(t: System, v: Pi.Service) {
    Idle(t) && t.mem == v.mem && OutcomeOf(t.phase) == v.outcome && t.client == PingClient(v.tx) && t.toPc == []
  }

  /** What can be read as a packet is handled as one, whatever the schedule; the client is not told so. */
  lemma KnownStale(area: Area, mem: Memory, stale: seq<byte>, acts: seq<Action>)
    requires UpsetRun(area, mem, stale, acts) && IsKnown(TypeRead(stale, PingFrame()))
    ensures var t, v := UpsetEnd(area, mem, stale, acts), KnownEnd(area, mem, StaleHeader(stale), Tail(stale));
      Ends(t, v) && t.client.error != Some(Response(BPR_ERR, TypeRead(stale, PingFrame())))
  {
    var c, s := PingOnly(area, mem), Upset(mem, stale);
    var h, q := StaleHeader(stale), Tail(stale);
    StreamSplit(stale);
    DrainedAgrees(c, s, acts);
    KnownServed(area, mem, stale + PingFrame(), Drained(c, s, acts));
    var t, e := UpsetServed(area, mem, stale, acts, Drained(c, s, acts));
    AnswerGiven(area, mem, h, q, e);
  }

  lemma AnswerGiven(area: Area, mem: Memory, h: Header, q: seq<byte>, e: seq<byte>)
    requires IsKnown(h.pType) && e == KnownEnd(area, mem, h, q).tx
    ensures e == [] || |e| == RESPONSE_SIZE
    ensures PingClient(e).error != Some(Response(BPR_ERR, h.pType))
  {
    if e != [] {
      var p := Answer(area, h, q[..PayloadSize(area, h)]);
      KnownAnswer(area, h, q[..PayloadSize(area, h)], h.pType);
      ResponseRoundTrip(p);
      assert e[..RESPONSE_SIZE] == e;
    }
  }

  /**
   A Pi that waits for the rest of a header answers the next PING with ERR and the type it has made up, throws
   the rest away, and is ready for a new session with its memory as it was, if and only if what it holds is
   shorter than a type, or begins with no known type.
   */
  lemma Resynchronised(area: Area, mem: Memory, stale: seq<byte>, next: Config, acts: seq<Action>)
    requires UpsetRun(area, mem, stale, acts) && Timely(PingOnly(area, mem), Upset(mem, stale), acts)
    requires next.area == area && next.mem == mem
    ensures var s := UpsetEnd(area, mem, stale, acts);
      (s.client.error == Some(Response(BPR_ERR, TypeRead(stale, PingFrame()))) && s.(client := RESTART) == Init(next))
      <==> |stale| < 4 || !IsKnown(FromLE32(stale[..4]))
  {
    TypeKnown(stale);
    if IsKnown(TypeRead(stale, PingFrame())) {
      KnownStale(area, mem, stale, acts);
    } else {
      UnknownStale(area, mem, stale, acts);
    }
  }

  /** The old header is a LOAD that the PING happens to complete, data and all. */
  predicate Swallows(area: Area, stale: seq<byte>)
    requires |stale| < HEADER_SIZE
  {
    var h := StaleHeader(stale);
    h.pType == BPT_LOAD && Accepts(area, h.address, h.size) && h.size == |stale|
  }

  /** The Pi is between two packets again in exactly two cases; in the second the PING has gone into memory. */
  lemma BackInStep(area: Area, mem: Memory, stale: seq<byte>, acts: seq<Action>)
    requires UpsetRun(area, mem, stale, acts) && Timely(PingOnly(area, mem), Upset(mem, stale), acts)
    ensures var t := UpsetEnd(area, mem, stale, acts);
      (t.phase == Reading([]) <==> !IsKnown(TypeRead(stale, PingFrame())) || Swallows(area, stale)) &&
      (Swallows(area, stale) ==> t.mem == Write(mem, StaleHeader(stale).address, Tail(stale)))
  {
    StreamSplit(stale);
    if IsKnown(TypeRead(stale, PingFrame())) {
      KnownStale(area, mem, stale, acts);
      KnownBack(area, mem, StaleHeader(stale), Tail(stale), UpsetEnd(area, mem, stale, acts));
    } else {
      UnknownStale(area, mem, stale, acts);
    }
  }

  lemma KnownBack(area: Area, mem: Memory, h: Header, q: seq<byte>, t: System)
    requires q != [] && Ends(t, KnownEnd(area, mem, h, q))
    ensures var swallows := h.pType == BPT_LOAD && Accepts(area, h.address, h.size) && h.size == |q|;
      (t.phase == Reading([]) <==> swallows) && (swallows ==> t.mem == Write(mem, h.address, q))
  {
    assert q[..|q|] == q;
  }

  /**
   With the code of PING, ZERO or REBOOT in what is left, or of a LOAD that is refused, the two sides stay out of
   step by as many bytes.
   */
  lemma StillOutOfStep(area: Area, mem: Memory, stale: seq<byte>, acts: seq<Action>)
    requires UpsetRun(area, mem, stale, acts) && 4 <= |stale| && IsKnown(FromLE32(stale[..4]))
    requires FromLE32(stale[..4]) != BPT_EXEC && PayloadSize(area, StaleHeader(stale)) == 0
    ensures var t, h := UpsetEnd(area, mem, stale, acts), StaleHeader(stale);
      t == System(PingClient(EncodeResponse(Answer(area, h, []))), Reading(Tail(stale)),
                  MemoryAfter(area, h, mem, []), [], [])
  {
    var h, q := StaleHeader(stale), Tail(stale);
    TypeKnown(stale);
    LongStale(stale, PingFrame());
    StreamSplit(stale);
    KnownStale(area, mem, stale, acts);
    NoDataEnd(area, mem, h, q, UpsetEnd(area, mem, stale, acts));
  }

  lemma NoDataEnd(area: Area, mem: Memory, h: Header, q: seq<byte>, t: System)
    requires Ends(t, KnownEnd(area, mem, h, q)) && h.pType != BPT_EXEC && PayloadSize(area, h) == 0
    ensures t == System(PingClient(EncodeResponse(Answer(area, h, []))), Reading(q),
                        MemoryAfter(area, h, mem, []), [], [])
  {
    assert q[..0] == [] && q[0..] == q;
  }

  /** With that of EXEC the Pi starts whatever lies at the address read, and the client is told ACK, not RDY. */
  lemma StaleExec(area: Area, mem: Memory, stale: seq<byte>, acts: seq<Action>)
    requires UpsetRun(area, mem, stale, acts) && 4 <= |stale| && FromLE32(stale[..4]) == BPT_EXEC
    ensures var t, h := UpsetEnd(area, mem, stale, acts), StaleHeader(stale);
      t.phase == Running(h.address, h.flags & BPF_NOWD == 0) && t.mem == mem &&
      t.client.error == Some(Response(BPR_ACK, 0))
  {
    TypeKnown(stale);
    LongStale(stale, PingFrame());
    StreamSplit(stale);
    KnownStale(area, mem, stale, acts);
    ExecEnd(area, mem, StaleHeader(stale), Tail(stale), UpsetEnd(area, mem, stale, acts));
  }

  lemma ExecEnd(area: Area, mem: Memory, h: Header, q: seq<byte>, t: System)
    requires Ends(t, KnownEnd(area, mem, h, q)) && h.pType == BPT_EXEC
    ensures t.phase == Running(h.address, h.flags & BPF_NOWD == 0) && t.mem == mem
    ensures t.client.error == Some(Response(BPR_ACK, 0))
  {
    var p := Response(BPR_ACK, 0);
    ResponseRoundTrip(p);
    assert EncodeResponse(p)[..RESPONSE_SIZE] == EncodeResponse(p);
  }

  /**
   With that of a LOAD in range the Pi stores the rest of the PING, and answers for it if that is enough; if it
   is not, both sides wait for ever.
   */
  lemma StaleLoad(area: Area, mem: Memory, stale: seq<byte>, acts: seq<Action>)
    requires UpsetRun(area, mem, stale, acts) && 4 <= |stale| && FromLE32(stale[..4]) == BPT_LOAD
    requires var h := StaleHeader(stale); Accepts(area, h.address, h.size)
    ensures var t, h, q := UpsetEnd(area, mem, stale, acts), StaleHeader(stale), Tail(stale);
      if h.size <= |q| then
        t == System(PingClient(EncodeResponse(Verdict(h, q[..h.size]))), Reading(q[h.size..]),
                    Write(mem, h.address, q[..h.size]), [], [])
      else t == System(ClientState(0, HEADER_SIZE, [], None), Receiving(h, |q|), Write(mem, h.address, q), [], [])
  {
    TypeKnown(stale);
    LongStale(stale, PingFrame());
    StreamSplit(stale);
    KnownStale(area, mem, stale, acts);
    LoadEnd(area, mem, StaleHeader(stale), Tail(stale), UpsetEnd(area, mem, stale, acts));
  }

  lemma LoadEnd(area: Area, mem: Memory, h: Header, q: seq<byte>, t: System)
    requires Ends(t, KnownEnd(area, mem, h, q)) && h.pType == BPT_LOAD && Accepts(area, h.address, h.size)
    ensures
      if h.size <= |q| then
        t == System(PingClient(EncodeResponse(Verdict(h, q[..h.size]))), Reading(q[h.size..]),
                    Write(mem, h.address, q[..h.size]), [], [])
      else t == System(ClientState(0, HEADER_SIZE, [], None), Receiving(h, |q|), Write(mem, h.address, q), [], [])
  {
  }

  /** The PING after that is answered RDY. */
  lemma NextPingAnswered(area: Area, mem: Memory, stale: seq<byte>, acts: seq<Action>, more: seq<Action>)
    requires UpsetRun(area, mem, stale, acts) && Timely(PingOnly(area, mem), Upset(mem, stale), acts)
    requires |stale| < 4 || !IsKnown(FromLE32(stale[..4]))
    requires var c, s := PingOnly(area, mem), UpsetEnd(area, mem, stale, acts).(client := RESTART);
      Valid(c, s, more) && Stuck(c, After(c, s, more))
    ensures var c, s := PingOnly(area, mem), UpsetEnd(area, mem, stale, acts).(client := RESTART);
      After(c, s, more) == System(ClientState(1, 0, [], None), Reading([]), mem, [], [])
  {
    var c := PingOnly(area, mem);
    Resynchronised(area, mem, stale, c, acts);
    assert SessionOutcome.Good(c, 0) && SessionOutcome.GoodAt(c, 0);
    EffectOne(Ping, mem);
    SessionOutcome.AcceptedSession(c, more);
  }
}
