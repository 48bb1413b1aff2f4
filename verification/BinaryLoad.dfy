/** The upload of a binary image, part by part (client/binary_loader.c). */
module BinaryLoad {
  import opened Bytes
  import opened Memory
  import opened Protocol
  import opened BinarySplit
  import opened Bootproto

  /** The file as an array of words; up to three bytes at its end are left out. */
  function Words(data: seq<byte>): (w: seq<bv32>)
    ensures |w| == |data| / 4
  {
    seq(|data| / 4, i requires 0 <= i < |data| / 4 => FromLE32(data[4 * i..4 * i + 4]))
  }

  function FileCuts(data: seq<byte>): (c: seq<nat>)
    ensures |c| >= 2
  {
    Cuts(ZeroWords(Words(data)))
  }

  /** The request for part j, of the words from up to to. */
  function PartRequest(data: seq<byte>, e: u32, beef: bool, j: nat, from: nat, to: nat): (r: Request)
    requires from <= to && 4 * to <= |data| < 0x8000_0000
    ensures Sendable(r)
  {
    var a := Moved(e, 4 * from);
    if j % 2 == 0 then Load(a, data[4 * from..4 * to]) else Zero(a, 4 * (to - from), beef)
  }

  predicate Ordered(cuts: seq<nat>, j: nat, size: nat)
    requires j + 1 < |cuts|
  {
    cuts[j] <= cuts[j + 1] && 4 * cuts[j + 1] <= size
  }

  /** Cuts of the words of a file of so many bytes. */
  predicate CutsOf(size: nat, cuts: seq<nat>) {
    |cuts| >= 2 && cuts[0] == 0 && cuts[|cuts| - 1] == size / 4 &&
    forall j: nat | j + 1 < |cuts| :: Ordered(cuts, j, size)
  }

  function PartRequests(data: seq<byte>, e: u32, beef: bool, cuts: seq<nat>): (s: seq<Request>)
    requires |data| < 0x8000_0000 && CutsOf(|data|, cuts)
    ensures |s| == |cuts| - 1 && AllSendable(s)
  {
    seq(|cuts| - 1, j requires 0 <= j < |cuts| - 1 =>
      assert Ordered(cuts, j, |data|); PartRequest(data, e, beef, j, cuts[j], cuts[j + 1]))
  }

  lemma FileCutsOrdered(data: seq<byte>)
    ensures var c := FileCuts(data);
      Canonical(ZeroWords(Words(data)), c) && CutsOf(|data|, c)
  {
    var z, c := ZeroWords(Words(data)), FileCuts(data);
    CutsCanonical(z, c);
    forall j: nat | j + 1 < |c| ensures Ordered(c, j, |data|) {
      CutsIncrease(|z|, c, j, j + 1);
      CutsIncrease(|z|, c, j + 1, |c| - 1);
    }
  }

  /** The requests of an upload: none at all when the first part is empty. */
  function BinaryScript(data: seq<byte>, e: u32, beef: bool): (s: seq<Request>)
    requires |data| < 0x8000_0000
    ensures AllSendable(s)
  {
    FileCutsOrdered(data);
    var c := FileCuts(data);
    if c[1] == 0 then [] else PartRequests(data, e, beef, c)
  }

  // ---------- When nothing is sent ----------

  /** The length of the run of zeros at the start. */
  function LeadingZeros(z: seq<bool>): (n: nat)
    ensures n <= |z| && (forall i | 0 <= i < n :: z[i]) && (n < |z| ==> !z[n])
  {
    if z == [] || !z[0] then 0 else 1 + LeadingZeros(z[1..])
  }

  /** The first part is empty exactly when all of the first 128 words, or of all there are, are zero. */
  lemma FirstPartEmpty(z: seq<bool>)
    ensures |Cuts(z)| >= 2
    ensures Cuts(z)[1] == 0 <==> forall i | 0 <= i < |z| && i < BIG :: z[i]
  {
    var c, n := Cuts(z), LeadingZeros(z);
    CutsCanonical(z, c);
    CutsIncrease(|z|, c, 1, |c| - 1);
    if n > 0 && (n >= BIG || n == |z|) {
      assert KeptRun(z, 0, n);
      var j :| 1 <= j < |c| - 1 && j % 2 == 1 && c[j] == 0 && c[j + 1] == n;
      CutsIncrease(|z|, c, 1, j);
    }
    if c[1] == 0 && |z| > 0 {
      assert KeptRun(z, c[1], c[2]);
    }
  }

  /** What can be seen beforehand: the image has no words, or one of its first 128 words is not zero. */
  predicate Uploadable(data: seq<byte>) {
    |data| < 4 || exists i :: 0 <= i < |data| / 4 && i < BIG && Words(data)[i] != 0
  }

  function Image(data: seq<byte>): seq<byte> {
    data[..4 * (|data| / 4)]
  }

  /** How many bytes of the file are stored. */
  function UploadLength(data: seq<byte>): nat {
    if Uploadable(data) then |Image(data)| else 0
  }

  /** Where the next file goes. */
  function NextLoad(e: u32, data: seq<byte>): u32 {
    Moved(e, UploadLength(data))
  }

  lemma UploadableCuts(data: seq<byte>)
    ensures FileCuts(data)[1] > 0 <==> |data| >= 4 && Uploadable(data)
  {
    var z := ZeroWords(Words(data));
    FirstPartEmpty(z);
    if |data| >= 4 && Uploadable(data) {
      var i :| 0 <= i < |data| / 4 && i < BIG && Words(data)[i] != 0;
      assert !z[i];
    }
    if FileCuts(data)[1] > 0 {
      var i :| 0 <= i < |z| && i < BIG && !z[i];
      assert Words(data)[i] != 0;
    }
  }

  lemma OneZeroAtTheEnd()
    ensures Cuts([false, true]) == [0, 1, 2]
  {
    var z, c := [false, true], [0, 1, 2];
    forall a, b | KeptRun(z, a, b) ensures IsOddPart(c, a, b) {
      assert z[a];
      assert c[1] == a && c[2] == b;
    }
    CutsCanonical(z, c);
  }

  /** The cuts of a word and a zero word. */
  lemma WordAndZero(data: seq<byte>)
    requires data == [1, 0, 0, 0, 0, 0, 0, 0]
    ensures FileCuts(data) == [0, 1, 2] && ZeroWords(Words(data)) == [false, true]
  {
    assert data[0..4] == [1, 0, 0, 0] && data[4..8] == [0, 0, 0, 0];
    assert ZeroWords(Words(data)) == [false, true];
    OneZeroAtTheEnd();
  }

  lemma PartsSent(e: u32, data: seq<byte>, beef: bool)
    requires |data| < 0x8000_0000 && FileCuts(data)[1] > 0
    ensures CutsOf(|data|, FileCuts(data)) && OddPartsKept(ZeroWords(Words(data)), FileCuts(data))
    ensures BinaryScript(data, e, beef) == PartRequests(data, e, beef, FileCuts(data))
  {
    FileCutsOrdered(data);
  }

  // ---------- The replay ----------

  /** Where in the file a part lies; a part of zeros lies nowhere. */
  predicate PartFits(part: BinPart, data: seq<byte>) {
    0 <= part.size < SPACE && (part.addr.At? ==> part.addr.offset + part.size <= |data|)
  }

  function RequestOf(part: BinPart, data: seq<byte>, e: u32, beef: bool): (r: Request)
    requires PartFits(part, data) && |data| < 0x8000_0000
    ensures Sendable(r)
  {
    match part.addr
    case At(offset) => Load(e, data[offset..offset + part.size])
    case Null => Zero(e, part.size, beef)
  }

  predicate AllFit(p: seq<BinPart>, data: seq<byte>) {
    forall j | 0 <= j < |p| :: PartFits(p[j], data)
  }

  /** The requests for the parts from i up to the first empty one; part i goes to e + off. */
  function Replay(p: seq<BinPart>, i: nat, data: seq<byte>, e: u32, off: nat, beef: bool): (s: seq<Request>)
    requires i <= |p| && AllFit(p, data) && |data| < 0x8000_0000
    ensures AllSendable(s)
    decreases |p| - i
  {
    if i == |p| || p[i].size == 0 then []
    else [RequestOf(p[i], data, Moved(e, off), beef)] + Replay(p, i + 1, data, e, off + p[i].size, beef)
  }

  function ReplayEnd(p: seq<BinPart>, i: nat, off: int): int
    requires i <= |p|
    decreases |p| - i
  {
    if i == |p| || p[i].size == 0 then off else ReplayEnd(p, i + 1, off + p[i].size)
  }

  /** The replay in progress: x is what has been exchanged before part i. */
  ghost function Uploaded(p: seq<BinPart>, i: nat, data: seq<byte>, e: u32, off: nat, beef: bool,
                          x: Exchanged): Exchanged
    requires i <= |p| && AllFit(p, data) && |data| < 0x8000_0000
    decreases |p| - i
  {
    if i == |p| || p[i].size == 0 || !x.ok then x
    else Uploaded(p, i + 1, data, e, off + p[i].size, beef, PartUploaded(p[i], data, Moved(e, off), beef, x))
  }

  ghost function PartUploaded(part: BinPart, data: seq<byte>, a: u32, beef: bool, x: Exchanged): Exchanged
    requires PartFits(part, data) && |data| < 0x8000_0000
  {
    Before(x.sent, Exchange(RequestOf(part, data, a, beef), x.rest))
  }

  lemma ExchangeStep(r: Request, s: seq<Request>, sent: seq<Request>, rx: seq<byte>)
    requires Sendable(r) && AllSendable(s)
    ensures AllSendable([r] + s)
    ensures var y := Before(sent, Exchange(r, rx));
      Before(sent, ExchangeAll([r] + s, rx)) == if y.ok then Before(y.sent, ExchangeAll(s, y.rest)) else y
  {
    var x := Exchange(r, rx);
    assert ([r] + s)[1..] == s;
    BeforeTwice(sent, x.sent, ExchangeAll(s, x.rest));
  }

  /** One part, before the requests s. */
  lemma PartStep(part: BinPart, data: seq<byte>, a: u32, beef: bool, r: Request, s: seq<Request>, x: Exchanged)
      returns (y: Exchanged)
    requires PartFits(part, data) && |data| < 0x8000_0000 && r == RequestOf(part, data, a, beef) && AllSendable(s)
    ensures y == PartUploaded(part, data, a, beef, x) && AllSendable([r] + s)
    ensures Before(x.sent, ExchangeAll([r] + s, x.rest)) == if y.ok then Before(y.sent, ExchangeAll(s, y.rest)) else y
  {
    y := PartUploaded(part, data, a, beef, x);
    ExchangeStep(r, s, x.sent, x.rest);
  }

  lemma {:induction false} UploadedAll(p: seq<BinPart>, i: nat, data: seq<byte>, e: u32, off: nat, beef: bool,
                                       x: Exchanged)
    requires i <= |p| && AllFit(p, data) && |data| < 0x8000_0000 && x.ok
    ensures Uploaded(p, i, data, e, off, beef, x)
         == Before(x.sent, ExchangeAll(Replay(p, i, data, e, off, beef), x.rest))
    decreases |p| - i
  {
    if i == |p| || p[i].size == 0 {
      assert x.sent + [] == x.sent;
    } else {
      var r, s := RequestOf(p[i], data, Moved(e, off), beef), Replay(p, i + 1, data, e, off + p[i].size, beef);
      var y := PartStep(p[i], data, Moved(e, off), beef, r, s, x);
      if y.ok { UploadedAll(p, i + 1, data, e, off + p[i].size, beef, y); }
    }
  }

  method UploadPart(client: Client, data: seq<byte>, part: BinPart) returns (ok: bool)
    requires client.Valid() && PartFits(part, data) && |data| < 0x8000_0000
    modifies client`tx, client`log, client`rx, client`eLoad
    ensures client.Valid()
    ensures Exchanged(client.log, ok, client.rx)
         == PartUploaded(part, data, old(client.eLoad), client.beefBss,
                         Exchanged(old(client.log), true, old(client.rx)))
    ensures ok ==> client.eLoad == Moved(old(client.eLoad), part.size)
  {
    ghost var r := RequestOf(part, data, client.eLoad, client.beefBss);
    match part.addr {
      case At(offset) =>
        assert r == Load(client.eLoad, data[offset..offset + part.size]);
        ok := client.LoadBuffer(client.eLoad, data[offset..offset + part.size]);
      case Null =>
        assert r == Zero(client.eLoad, part.size, client.beefBss);
        ok := client.ZeroSection(client.eLoad, part.size);
    }
    if ok { client.eLoad := Moved(client.eLoad, part.size); }
  }

  /** The loop over the parts: it stops at the first empty one. */
  method UploadParts(client: Client, data: seq<byte>, parts: array<BinPart>, ghost p: seq<BinPart>) returns (ok: bool)
    requires client.Valid()
    requires |data| < 0x8000_0000 && |p| < parts.Length && parts[..|p|] == p && parts[|p|].size == 0 && AllFit(p, data)
    modifies client`tx, client`log, client`rx, client`eLoad
    ensures client.Valid()
    ensures Exchanged(client.log, ok, client.rx)
         == Uploaded(p, 0, data, old(client.eLoad), 0, client.beefBss, Exchanged(old(client.log), true, old(client.rx)))
    ensures ok ==> client.eLoad == Moved(old(client.eLoad), ReplayEnd(p, 0, 0))
  {
    var i := 0;
    ghost var e, off, x := client.eLoad, 0, Exchanged(client.log, true, client.rx);
    while parts[i].size > 0
      invariant 0 <= i <= |p| && 0 <= off && client.eLoad == Moved(e, off)
      invariant client.Valid() && x == Exchanged(client.log, true, client.rx)
      invariant Uploaded(p, 0, data, e, 0, client.beefBss, Exchanged(old(client.log), true, old(client.rx)))
             == Uploaded(p, i, data, e, off, client.beefBss, x)
      invariant ReplayEnd(p, 0, 0) == ReplayEnd(p, i, off)
      decreases |p| - i
    {
      assert p[i] == parts[i];
      ok := UploadPart(client, data, parts[i]);
      x := Exchanged(client.log, ok, client.rx);
      if !ok { return; }
      MovedTwice(e, off, p[i].size);
      off := off + p[i].size;
      i := i + 1;
    }
    ok := true;
  }

  lemma PartRequestOf(data: seq<byte>, e: u32, beef: bool, c: seq<nat>, k: nat)
    requires |data| < 0x8000_0000 && CutsOf(|data|, c) && k + 1 < |c|
    ensures var part := PartsOf(c)[k];
      PartFits(part, data) && part.size == 4 * c[k + 1] - 4 * c[k] &&
      RequestOf(part, data, Moved(e, 4 * c[k]), beef) == PartRequests(data, e, beef, c)[k]
  {
    assert Ordered(c, k, |data|);
  }

  lemma PartsFit(data: seq<byte>, c: seq<nat>)
    requires |data| < 0x8000_0000 && CutsOf(|data|, c)
    ensures AllFit(PartsOf(c), data)
  {
    forall j | 0 <= j < |c| - 1 ensures PartFits(PartsOf(c)[j], data) { PartRequestOf(data, 0, false, c, j); }
  }

  ghost predicate NonEmptyFrom(c: seq<nat>, k: nat)
    decreases |c| - k
  {
    k + 1 >= |c| || (c[k] < c[k + 1] && NonEmptyFrom(c, k + 1))
  }

  lemma TailFrom<T>(s: seq<T>, k: nat)
    requires k < |s|
    ensures s[k..] == [s[k]] + s[k + 1..]
  {
  }

  /** Going through the parts of an image sends what its script says. */
  lemma {:induction false} ReplayParts(data: seq<byte>, e: u32, beef: bool, c: seq<nat>, k: nat, off: nat)
    requires |data| < 0x8000_0000 && CutsOf(|data|, c) && k < |c| && AllFit(PartsOf(c), data) && NonEmptyFrom(c, k)
    requires off == 4 * c[k]
    ensures Replay(PartsOf(c), k, data, e, off, beef) == PartRequests(data, e, beef, c)[k..]
    decreases |c| - k
  {
    if k + 1 < |c| {
      PartRequestOf(data, e, beef, c, k);
      ReplayParts(data, e, beef, c, k + 1, 4 * c[k + 1]);
      TailFrom(PartRequests(data, e, beef, c), k);
    }
  }

  lemma {:induction false} ReplayLength(size: nat, c: seq<nat>, k: nat, off: nat)
    requires CutsOf(size, c) && k < |c| && NonEmptyFrom(c, k) && off == 4 * c[k]
    ensures ReplayEnd(PartsOf(c), k, off) == 4 * (size / 4)
    decreases |c| - k
  {
    if k + 1 < |c| {
      assert Ordered(c, k, size);
      ReplayLength(size, c, k + 1, 4 * c[k + 1]);
    }
  }

  lemma {:induction false} AscendingNonEmpty(n: nat, c: seq<nat>, k: nat)
    requires Ascending(n, c) && 1 <= k < |c|
    ensures NonEmptyFrom(c, k)
    decreases |c| - k
  {
    if k + 1 < |c| { AscendingNonEmpty(n, c, k + 1); }
  }

  lemma ReplayCuts(data: seq<byte>, e: u32, beef: bool, c: seq<nat>)
    requires |data| < 0x8000_0000 && CutsOf(|data|, c) && AllFit(PartsOf(c), data)
    requires c[1] > 0 ==> Ascending(|data| / 4, c)
    ensures Replay(PartsOf(c), 0, data, e, 0, beef) == if c[1] == 0 then [] else PartRequests(data, e, beef, c)
    ensures ReplayEnd(PartsOf(c), 0, 0) == if c[1] == 0 then 0 else 4 * (|data| / 4)
  {
    if c[1] > 0 {
      AscendingNonEmpty(|data| / 4, c, 1);
      ReplayParts(data, e, beef, c, 0, 0);
      ReplayLength(|data|, c, 0, 0);
    }
  }

  lemma SentSize(data: seq<byte>)
    ensures UploadLength(data) == if FileCuts(data)[1] == 0 then 0 else 4 * (|data| / 4)
  {
    UploadableCuts(data);
  }

  lemma ReplayFile(data: seq<byte>, e: u32, beef: bool)
    requires |data| < 0x8000_0000
    ensures var p := PartsOf(FileCuts(data));
      AllFit(p, data) && Replay(p, 0, data, e, 0, beef) == BinaryScript(data, e, beef) &&
      ReplayEnd(p, 0, 0) == UploadLength(data)
  {
    var c := FileCuts(data);
    FileCutsOrdered(data);
    PartsFit(data, c);
    ReplayCuts(data, e, beef, c);
    SentSize(data);
  }

  lemma ReplayOf(data: seq<byte>, e: u32, beef: bool) returns (p: seq<BinPart>, s: seq<Request>, end: int)
    requires |data| < 0x8000_0000
    ensures p == PartsOf(FileCuts(data)) && s == BinaryScript(data, e, beef) && AllFit(p, data)
    ensures Replay(p, 0, data, e, 0, beef) == s && ReplayEnd(p, 0, 0) == end == UploadLength(data)
  {
    p, s := PartsOf(FileCuts(data)), BinaryScript(data, e, beef);
    ReplayFile(data, e, beef);
    end := ReplayEnd(p, 0, 0);
  }

  lemma UploadedFile(data: seq<byte>, e: u32, beef: bool, x: Exchanged) returns (p: seq<BinPart>)
    requires |data| < 0x8000_0000 && x.ok
    ensures p == PartsOf(FileCuts(data)) && AllFit(p, data) && ReplayEnd(p, 0, 0) == UploadLength(data)
    ensures Uploaded(p, 0, data, e, 0, beef, x) == Before(x.sent, ExchangeAll(BinaryScript(data, e, beef), x.rest))
  {
    var s, end;
    p, s, end := ReplayOf(data, e, beef);
    UploadedAll(p, 0, data, e, 0, beef, x);
  }

  method LoadBinary(client: Client, data: seq<byte>) returns (ok: bool)
    requires client.Valid() && |data| < 0x8000_0000
    modifies client`tx, client`log, client`rx, client`eLoad
    ensures client.Valid()
    ensures Exchanged(client.log, ok, client.rx)
         == Before(old(client.log), ExchangeAll(BinaryScript(data, old(client.eLoad), client.beefBss), old(client.rx)))
    ensures ok ==> client.eLoad == NextLoad(old(client.eLoad), data)
  {
    var parts := SplitBinary(Words(data), |data|);
    ghost var p := UploadedFile(data, client.eLoad, client.beefBss, Exchanged(client.log, true, client.rx));
    ok := UploadParts(client, data, parts, p);
  }
}
