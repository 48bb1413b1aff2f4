/** What the zero parts cost and save on the line (client/binary_loader.c, lines 60-72 and 112-123). */
module BinaryCost {
  import opened Bytes
  import opened Protocol
  import opened BinarySplit
  import opened BinaryLoad

  /** Bytes from the PC for the first k parts. */
  function CostUpTo(c: seq<int>, k: nat): int
    requires k < |c|
  {
    if k == 0 then 0 else CostUpTo(c, k - 1) + HEADER_SIZE + PartData(c, k - 1)
  }

  /** The data sent for part j. */
  function PartData(c: seq<int>, j: nat): int
    requires j + 1 < |c|
  {
    if j % 2 == 0 then 4 * (c[j + 1] - c[j]) else 0
  }

  lemma PartCost(data: seq<byte>, e: u32, beef: bool, c: seq<nat>, s: seq<Request>, j: nat)
    requires |data| < 0x8000_0000 && CutsOf(|data|, c) && j + 1 < |c| && s == PartRequests(data, e, beef, c)
    ensures |PayloadOf(s[j])| == PartData(c, j)
  {
    assert Ordered(c, j, |data|);
  }

  lemma BytesLast(s: seq<Request>, k: nat)
    requires 0 < k <= |s|
    ensures LineBytes(s[..k]) == LineBytes(s[..k - 1]) + HEADER_SIZE + |PayloadOf(s[k - 1])|
  {
    assert s[..k][..k - 1] == s[..k - 1];
  }

  lemma {:induction false} ScriptCost(c: seq<nat>, s: seq<Request>, k: nat)
    requires k <= |s| < |c| && forall j | 0 <= j < |s| :: |PayloadOf(s[j])| == PartData(c, j)
    ensures LineBytes(s[..k]) == CostUpTo(c, k)
  {
    if k > 0 {
      ScriptCost(c, s, k - 1);
      BytesLast(s, k);
    }
  }

  lemma InnerRun(z: seq<bool>, c: seq<nat>, j: nat)
    requires Canonical(z, c) && j % 2 == 1 && j + 2 < |c|
    ensures c[j + 1] - c[j] >= BIG
  {
    assert KeptRun(z, c[j], c[j + 1]);
    CutsIncrease(|z|, c, j + 1, |c| - 1);
  }

  /** A zero part with a part behind it spares at least 472 bytes, its own header and one more paid for. */
  lemma {:induction false} CostAfterLiteral(z: seq<bool>, c: seq<nat>, k: nat)
    requires Canonical(z, c) && k % 2 == 1 && k < |c|
    ensures CostUpTo(c, k) + 472 * ((k - 1) / 2) <= HEADER_SIZE + 4 * c[k]
    decreases k
  {
    if k > 1 {
      CostAfterLiteral(z, c, k - 2);
      InnerRun(z, c, k - 2);
      assert CostUpTo(c, k - 1) == CostUpTo(c, k - 2) + HEADER_SIZE;
    }
  }

  lemma CostOfAll(z: seq<bool>, c: seq<nat>)
    requires Canonical(z, c)
    ensures CostUpTo(c, |c| - 1) + 472 * ((|c| - 2) / 2) <= HEADER_SIZE + 4 * |z| + 16
  {
    var n := |c| - 1;
    if n % 2 == 1 {
      CostAfterLiteral(z, c, n);
    } else {
      CostAfterLiteral(z, c, n - 1);
      CutsIncrease(|z|, c, n - 1, n);
    }
  }

  /** The cuts behind a script, and what they say about the data of its requests. */
  lemma CutsOfScript(data: seq<byte>, e: u32, beef: bool) returns (s: seq<Request>, c: seq<nat>)
    requires |data| < 0x8000_0000 && BinaryScript(data, e, beef) != []
    ensures s == BinaryScript(data, e, beef) && |s| == |c| - 1 && Canonical(ZeroWords(Words(data)), c)
    ensures forall j | 0 <= j < |s| :: |PayloadOf(s[j])| == PartData(c, j)
  {
    FileCutsOrdered(data);
    PartsSent(e, data, beef);
    c := FileCuts(data);
    s := PartRequests(data, e, beef, c);
    forall j | 0 <= j < |s| ensures |PayloadOf(s[j])| == PartData(c, j) { PartCost(data, e, beef, c, s, j); }
  }

  /** All headers and data of an upload, against one LOAD of the image: at most 16 bytes more. */
  lemma UploadCost(data: seq<byte>, e: u32, beef: bool)
    requires |data| < 0x8000_0000 && BinaryScript(data, e, beef) != []
    ensures var s := BinaryScript(data, e, beef);
      |Frames(s)| + 472 * ((|s| - 1) / 2) <= HEADER_SIZE + 4 * (|data| / 4) + 16
  {
    var s, c := CutsOfScript(data, e, beef);
    FramesLength(s);
    ScriptCost(c, s, |s|);
    WholeScript(s, |s|);
    CostOfAll(ZeroWords(Words(data)), c);
  }

  lemma WholeScript(s: seq<Request>, n: nat)
    requires |s| == n
    ensures s[..n] == s
  {
  }

  lemma TwoPartsBytes(data: seq<byte>, e: u32, beef: bool, s: seq<Request>)
    requires |data| == 8 && CutsOf(|data|, [0, 1, 2]) && s == PartRequests(data, e, beef, [0, 1, 2])
    ensures LineBytes(s) == HEADER_SIZE + |data| + 16
  {
    assert s[0] == PartRequest(data, e, beef, 0, 0, 1) && s[1] == PartRequest(data, e, beef, 1, 1, 2);
    assert s[..1][..0] == [] && s[..2][..1] == s[..1] && s[..2] == s;
    assert LineBytes(s[..1]) == HEADER_SIZE + 4;
  }

  /** The 16 bytes more are needed: a word and a zero word. */
  lemma BoundReached(e: u32, beef: bool)
    ensures var data := [1, 0, 0, 0, 0, 0, 0, 0];
      |Frames(BinaryScript(data, e, beef))| == HEADER_SIZE + |data| + 16
  {
    var data: seq<byte> := [1, 0, 0, 0, 0, 0, 0, 0];
    WordAndZero(data);
    PartsSent(e, data, beef);
    TwoPartsBytes(data, e, beef, BinaryScript(data, e, beef));
    FramesLength(BinaryScript(data, e, beef));
  }
}
