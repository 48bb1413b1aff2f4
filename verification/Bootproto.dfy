/** The requests of the PC, each written whole before its response is read (client/bootproto.c). */
module Bootproto {
  import opened Bytes
  import opened Protocol
  import Crc32

  /** The requests written, whether the client goes on, and the bytes left to read. */
  datatype Exchanged = Exchanged(sent: seq<Request>, ok: bool, rest: seq<byte>)

  /** The response spelled by the bytes s has the code that lets the client go on after r. */
  ghost predicate Hoped(r: Request, s: seq<byte>) {
    forall p: Response :: EncodeResponse(p) == s ==> p.code == Expected(r).code
  }

  lemma HopedDecoded(r: Request, s: seq<byte>)
    requires |s| == RESPONSE_SIZE
    ensures Hoped(r, s) <==> DecodeResponse(s).code == Expected(r).code
  {
    ResponseBytes(s);
    forall p: Response | EncodeResponse(p) == s ensures p == DecodeResponse(s) { ResponseRoundTrip(p); }
  }

  /** One request against the bytes rx that come from the Pi. Only the code of a response is looked at. */
  ghost function Exchange(r: Request, rx: seq<byte>): Exchanged
  {
    if |rx| < RESPONSE_SIZE then Exchanged([r], false, [])
    else Exchanged([r], Hoped(r, rx[..RESPONSE_SIZE]), rx[RESPONSE_SIZE..])
  }

  ghost function Before(sent: seq<Request>, x: Exchanged): Exchanged {
    x.(sent := sent + x.sent)
  }

  /** Requests in order, up to the first that fails. */
  ghost function ExchangeAll(script: seq<Request>, rx: seq<byte>): Exchanged
  {
    if script == [] then Exchanged([], true, rx)
    else
      var x := Exchange(script[0], rx);
      if !x.ok then x else Before(x.sent, ExchangeAll(script[1..], x.rest))
  }

  lemma BeforeTwice(a: seq<Request>, b: seq<Request>, x: Exchanged)
    ensures Before(a, Before(b, x)) == Before(a + b, x)
  {
    assert a + (b + x.sent) == (a + b) + x.sent;
  }

  /** Going on from x with more requests. */
  ghost function Continue(x: Exchanged, script: seq<Request>): Exchanged {
    if x.ok then Before(x.sent, ExchangeAll(script, x.rest)) else x
  }

  lemma ContinueOne(x: Exchanged, r: Request)
    requires x.ok
    ensures Continue(x, [r]) == Before(x.sent, Exchange(r, x.rest))
  {
    var y := Exchange(r, x.rest);
    assert [r][0] == r && [r][1..] == [] && y.sent + [] == y.sent;
    assert ExchangeAll([r][1..], y.rest) == Exchanged([], true, y.rest);
    assert ExchangeAll([r], x.rest) == y;
  }

  lemma {:induction false} ContinueConcat(x: Exchanged, a: seq<Request>, b: seq<Request>)
    ensures Continue(x, a + b) == Continue(Continue(x, a), b)
    decreases |a|
  {
    if a == [] {
      assert a + b == b;
      assert x.sent + [] == x.sent;
    } else if x.ok {
      var y := Exchange(a[0], x.rest);
      assert (a + b)[1..] == a[1..] + b;
      if y.ok {
        BeforeTwice(x.sent, y.sent, ExchangeAll(a[1..] + b, y.rest));
        BeforeTwice(x.sent, y.sent, ExchangeAll(a[1..], y.rest));
        ContinueConcat(Before(x.sent, y), a[1..], b);
      }
    }
  }

  lemma FromStart(x: Exchanged, s: seq<Request>)
    requires x.sent == [] && x.ok
    ensures Continue(x, s) == ExchangeAll(s, x.rest)
  {
    var y := ExchangeAll(s, x.rest);
    assert [] + y.sent == y.sent;
  }

  /** One more request, after those that all succeed. */
  lemma OneMore(s: seq<Request>, r: Request, rx: seq<byte>, rest: seq<byte>)
    requires ExchangeAll(s, rx) == Exchanged(s, true, rest)
    ensures ExchangeAll(s + [r], rx) == Before(s, Exchange(r, rest))
  {
    var x := Exchanged([], true, rx);
    ContinueConcat(x, s, [r]);
    FromStart(x, s);
    FromStart(x, s + [r]);
    ContinueOne(Exchanged(s, true, rest), r);
  }

  class Client {
    const beefBss: bool
    const noWatchdog: bool
    var eLoad: u32
    var tx: seq<byte>  // the bytes written to the serial line
    var rx: seq<byte>  // the bytes still to be read from it
    ghost var log: seq<Request>  // the requests made of them

    /** What is written is the frames of the requests, whole and in order. */
    ghost predicate Valid()
      reads this`tx, this`log
    {
      forall s | s == log :: AllSendable(s) && tx == Frames(s)
    }

    constructor (beefBss: bool, noWatchdog: bool, eLoad: u32, rx: seq<byte>)
      ensures this.beefBss == beefBss && this.noWatchdog == noWatchdog && this.eLoad == eLoad
      ensures this.rx == rx && log == [] && Valid()
    {
      this.beefBss, this.noWatchdog, this.eLoad, this.rx := beefBss, noWatchdog, eLoad, rx;
      tx, log := [], [];
    }

    method Write(data: seq<byte>)
      modifies this`tx
      ensures tx == old(tx) + data
    {
      tx := tx + data;
    }

    /** A header has been written. */
    ghost method Wrote(r: Request, h: Header)
      requires AllSendable(log) && !r.Load? && h == HeaderOf(r) && tx == Frames(log) + EncodeHeader(h)
      modifies this`log
      ensures Valid() && log == old(log) + [r]
    {
      FramesSnoc(log, r);
      assert EncodeHeader(h) + [] == EncodeHeader(h);
      log := log + [r];
    }

    /** A header and the data behind it have been written. */
    ghost method WroteLoad(r: Request, h: Header, d: seq<byte>)
      requires AllSendable(log) && Sendable(r) && h == HeaderOf(r) && d == PayloadOf(r)
      requires tx == Frames(log) + EncodeHeader(h) + d
      modifies this`log
      ensures Valid() && log == old(log) + [r]
    {
      FramesSnoc(log, r);
      Regrouped(Frames(log), EncodeHeader(h), d);
      log := log + [r];
    }

    /** Reads one response; incomplete when the line is closed before it is whole. */
    method ReadResponse() returns (complete: bool, rsp: Response)
      modifies this`rx
      ensures complete == (|old(rx)| >= RESPONSE_SIZE)
      ensures rx == if complete then old(rx)[RESPONSE_SIZE..] else []
      ensures complete ==> rsp == DecodeResponse(old(rx)[..RESPONSE_SIZE])
    {
      if |rx| < RESPONSE_SIZE {
        rx := [];
        return false, Response(0, 0);
      }
      rsp := DecodeResponse(rx[..RESPONSE_SIZE]);
      rx := rx[RESPONSE_SIZE..];
      return true, rsp;
    }

    /** Anything but an acknowledgement ends the program. */
    method CheckResponse(ghost r: Request) returns (ok: bool)
      requires !r.Ping?
      modifies this`rx
      ensures Exchanged([r], ok, rx) == Exchange(r, old(rx))
    {
      ghost var before := rx;
      var complete, rsp := ReadResponse();
      if !complete { return false; }
      HopedDecoded(r, before[..RESPONSE_SIZE]);
      return rsp.code == BPR_ACK;
    }

    method Ping() returns (ok: bool)
      requires Valid()
      modifies this`tx, this`rx, this`log
      ensures Valid() && Exchanged(log, ok, rx) == Before(old(log), Exchange(Request.Ping, old(rx)))
    {
      ghost var before := rx;
      var hdr := Header(BPT_PING, 0, 0, 0, 0);
      Write(EncodeHeader(hdr));
      Wrote(Request.Ping, hdr);
      var complete, rsp := ReadResponse();
      if !complete { return false; }
      HopedDecoded(Request.Ping, before[..RESPONSE_SIZE]);
      ok := rsp.code == BPR_RDY;
    }

    method LoadBuffer(address: u32, sdata: seq<byte>) returns (ok: bool)
      requires Valid() && Sendable(Load(address, sdata))
      modifies this`tx, this`rx, this`log
      ensures Valid() && Exchanged(log, ok, rx) == Before(old(log), Exchange(Load(address, sdata), old(rx)))
    {
      var crc := Crc32.Crc32(0, sdata);
      var hdr := Header(BPT_LOAD, address, |sdata|, crc, 0);
      Write(EncodeHeader(hdr));
      Write(sdata);
      WroteLoad(Load(address, sdata), hdr, sdata);
      ok := CheckResponse(Load(address, sdata));
    }

    method ZeroSection(address: u32, size: u32) returns (ok: bool)
      requires Valid()
      modifies this`tx, this`rx, this`log
      ensures Valid() && Exchanged(log, ok, rx) == Before(old(log), Exchange(Zero(address, size, beefBss), old(rx)))
    {
      var hdr := Header(BPT_ZERO, address, size, 0, 0);
      if beefBss { hdr := hdr.(flags := hdr.flags | BPF_BEEF); }
      Write(EncodeHeader(hdr));
      Wrote(Zero(address, size, beefBss), hdr);
      ok := CheckResponse(Zero(address, size, beefBss));
    }

    method ExecProgram(entry: u32) returns (ok: bool)
      requires Valid()
      modifies this`tx, this`rx, this`log
      ensures Valid() && Exchanged(log, ok, rx) == Before(old(log), Exchange(Exec(entry, noWatchdog), old(rx)))
    {
      var hdr := Header(BPT_EXEC, entry, 0, 0, 0);
      if noWatchdog { hdr := hdr.(flags := hdr.flags | BPF_NOWD); }
      Write(EncodeHeader(hdr));
      Wrote(Exec(entry, noWatchdog), hdr);
      ok := CheckResponse(Exec(entry, noWatchdog));
    }

    method RebootPi() returns (ok: bool)
      requires Valid()
      modifies this`tx, this`rx, this`log
      ensures Valid() && Exchanged(log, ok, rx) == Before(old(log), Exchange(Reboot, old(rx)))
    {
      var hdr := Header(BPT_REBOOT, 0, 0, 0, 0);
      Write(EncodeHeader(hdr));
      Wrote(Reboot, hdr);
      ok := CheckResponse(Reboot);
    }
  }
}
