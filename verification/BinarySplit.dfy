/**
 The splitter of binary images (client/binary_loader.c): one pass over the words cuts an image into
 alternating literal and zero parts, taking back every zero part that turns out too short.
 */
module BinarySplit {
  import opened Bytes

  /** Words in the smallest zero part worth a command of its own (512 bytes). */
  const BIG := 128

  datatype Address = Null | At(offset: nat)

  /** A part of an image: where its data starts, or Null for zeros, and its size in bytes. */
  datatype BinPart = BinPart(addr: Address, size: int)

  const TERMINATOR := BinPart(Null, 0)

  // ---------- The canonical decomposition ----------

  /** Which words of an image are zero. */
  function ZeroWords(sdata: seq<bv32>): (z: seq<bool>)
    ensures |z| == |sdata|
  {
    seq(|sdata|, i requires 0 <= i < |sdata| => sdata[i] == 0)
  }

  ghost predicate MaximalRun(z: seq<bool>, a: int, b: int) {
    0 <= a < b <= |z| &&
    (forall i | a <= i < b :: z[i]) &&
    (a > 0 ==> !z[a - 1]) &&
    (b < |z| ==> !z[b])
  }

  /** The runs of zeros that become parts: the long ones, and the one that reaches the end. */
  ghost predicate KeptRun(z: seq<bool>, a: int, b: int) {
    MaximalRun(z, a, b) && (b - a >= BIG || b == |z|)
  }

  /** Cuts of an image of n words; only the first part may be empty. */
  ghost predicate Ascending(n: nat, cuts: seq<nat>) {
    |cuts| >= 2 && cuts[0] == 0 && cuts[|cuts| - 1] == n &&
    forall j | 1 <= j < |cuts| - 1 :: cuts[j] < cuts[j + 1]
  }

  ghost predicate OddPartsKept(z: seq<bool>, cuts: seq<nat>) {
    forall j | 1 <= j < |cuts| - 1 && j % 2 == 1 :: KeptRun(z, cuts[j], cuts[j + 1])
  }

  ghost predicate IsOddPart(cuts: seq<nat>, a: int, b: int) {
    exists j :: 1 <= j < |cuts| - 1 && j % 2 == 1 && cuts[j] == a && cuts[j + 1] == b
  }

  ghost predicate KeptRunsCut(z: seq<bool>, cuts: seq<nat>) {
    forall a, b | KeptRun(z, a, b) :: IsOddPart(cuts, a, b)
  }

  /** Part j spans the words from cuts[j] up to cuts[j + 1]; the odd parts are exactly the kept runs. */
  ghost predicate Canonical(z: seq<bool>, cuts: seq<nat>) {
    Ascending(|z|, cuts) && OddPartsKept(z, cuts) && KeptRunsCut(z, cuts)
  }

  function PartOf(j: nat, from: nat, to: nat): BinPart {
    BinPart(if j % 2 == 0 then At(4 * from) else Null, 4 * (to - from))
  }

  /** The parts between the cuts. */
  function PartsOf(cuts: seq<nat>): (p: seq<BinPart>)
    requires cuts != []
    ensures |p| == |cuts| - 1
  {
    seq(|cuts| - 1, j requires 0 <= j < |cuts| - 1 => PartOf(j, cuts[j], cuts[j + 1]))
  }

  lemma {:induction false} CutsIncrease(n: nat, cuts: seq<nat>, i: nat, k: nat)
    requires Ascending(n, cuts) && i <= k < |cuts|
    ensures cuts[i] <= cuts[k]
    ensures 1 <= i < k ==> cuts[i] < cuts[k]
    decreases k
  {
    if i < k { CutsIncrease(n, cuts, i, k - 1); }
  }

  /** There is only one canonical decomposition. */
  lemma CanonicalUnique(z: seq<bool>, c: seq<nat>, d: seq<nat>)
    requires Canonical(z, c) && Canonical(z, d)
    ensures c == d
  {
    SamePrefix(z, c, d, |c| - 1);
    SamePrefix(z, d, c, |d| - 1);
  }

  lemma SameAt(c: seq<nat>, d: seq<nat>, k: nat)
    requires 0 < k <= |c| && k <= |d| && c[..k] == d[..k]
    ensures c[k - 1] == d[k - 1]
  {
    assert c[k - 1] == c[..k][k - 1] && d[k - 1] == d[..k][k - 1];
  }

  lemma LongerPrefix(c: seq<nat>, d: seq<nat>, k: nat)
    requires k < |c| && k < |d| && c[..k] == d[..k] && c[k] == d[k]
    ensures c[..k + 1] == d[..k + 1]
  {
    assert c[..k + 1] == c[..k] + [c[k]] && d[..k + 1] == d[..k] + [d[k]];
  }

  lemma {:induction false} SamePrefix(z: seq<bool>, c: seq<nat>, d: seq<nat>, k: nat)
    requires Canonical(z, c) && Canonical(z, d) && k < |c|
    ensures k < |d| && c[..k + 1] == d[..k + 1]
  {
    if k > 0 {
      SamePrefix(z, c, d, k - 1);
      SameAt(c, d, k);
      NextCut(z, c, d, k - 1);
      LongerPrefix(c, d, k);
    }
  }

  lemma NextCut(z: seq<bool>, c: seq<nat>, d: seq<nat>, j: nat)
    requires Canonical(z, c) && Canonical(z, d)
    requires j + 1 < |c| && j < |d| && c[j] == d[j]
    ensures j + 1 < |d| && c[j + 1] == d[j + 1]
  {
    if j + 1 == |d| { CutsIncrease(|z|, c, j + 1, |c| - 1); }
    if j % 2 == 1 {
      SameRun(z, c[j], c[j + 1], d[j + 1]);
    } else {
      NoEarlierCut(z, c, d, j);
      NoEarlierCut(z, d, c, j);
    }
  }

  lemma SameRun(z: seq<bool>, a: int, b: int, b': int)
    requires MaximalRun(z, a, b) && MaximalRun(z, a, b')
    ensures b == b'
  {
  }

  /** From a common even cut on, neither decomposition has a zero part before the other. */
  lemma NoEarlierCut(z: seq<bool>, c: seq<nat>, d: seq<nat>, j: nat)
    requires Canonical(z, c) && Canonical(z, d) && j % 2 == 0
    requires j + 1 < |c| && j + 1 < |d| && c[j] == d[j]
    ensures c[j + 1] >= d[j + 1]
  {
    if c[j + 1] < d[j + 1] {
      CutsIncrease(|z|, d, j + 1, |d| - 1);
      var i := OddPartAt(z, c, d, j + 1);
      CutsIncrease(|z|, c, j, j + 1);
      if i < j {
        CutsIncrease(|z|, d, i, j);
      } else {
        CutsIncrease(|z|, d, j + 1, i);
      }
    }
  }

  /** A zero part of one decomposition is a zero part of the other. */
  lemma OddPartAt(z: seq<bool>, c: seq<nat>, d: seq<nat>, k: nat) returns (i: nat)
    requires Ascending(|z|, c) && OddPartsKept(z, c) && KeptRunsCut(z, d)
    requires k % 2 == 1 && k < |c| && c[k] < |z|
    ensures 1 <= i < |d| - 1 && i % 2 == 1 && d[i] == c[k]
  {
    assert KeptRun(z, c[k], c[k + 1]);
    i := OddPartIndex(d, c[k], c[k + 1]);
  }

  lemma OddPartIndex(cuts: seq<nat>, a: int, b: int) returns (i: nat)
    requires IsOddPart(cuts, a, b)
    ensures 1 <= i < |cuts| - 1 && i % 2 == 1 && cuts[i] == a && cuts[i + 1] == b
  {
    i :| 1 <= i < |cuts| - 1 && i % 2 == 1 && cuts[i] == a && cuts[i + 1] == b;
  }

  // ---------- One word of the pass ----------

  /** The decomposition of the words seen so far; its last part is a zero part iff the last word was zero. */
  ghost predicate SplitSoFar(z: seq<bool>, i: nat, cuts: seq<nat>) {
    i <= |z| && Canonical(z[..i], cuts) &&
    (|cuts| % 2 == 1 <==> i > 0 && z[i - 1])
  }

  /** Runs that end before the current word are not affected by it. */
  lemma EarlierRun(z: seq<bool>, i: nat, a: int, b: int)
    requires i < |z| && b < i
    ensures KeptRun(z[..i], a, b) <==> KeptRun(z[..i + 1], a, b)
  {
  }

  lemma EarlierRunCut(z: seq<bool>, i: nat, c: seq<nat>, a: int, b: int) returns (j: nat)
    requires i < |z| && b < i && KeptRunsCut(z[..i], c) && KeptRun(z[..i + 1], a, b)
    ensures 1 <= j < |c| - 1 && j % 2 == 1 && c[j] == a && c[j + 1] == b
  {
    EarlierRun(z, i, a, b);
    j := OddPartIndex(c, a, b);
  }

  lemma LastRunCut(z: seq<bool>, i: nat, c: seq<nat>, a: int, b: int) returns (j: nat)
    requires i < |z| && KeptRunsCut(z[..i], c) && KeptRun(z[..i + 1], a, b)
    requires b == i || (b == i + 1 && a < i)
    ensures 1 <= j < |c| - 1 && j % 2 == 1 && c[j] == a && c[j + 1] == i
  {
    assert KeptRun(z[..i], a, i);
    j := OddPartIndex(c, a, i);
  }

  /** Zero parts that end before the current word stay. */
  lemma EarlierPartKept(z: seq<bool>, i: nat, c: seq<nat>, j: nat)
    requires i < |z| && OddPartsKept(z[..i], c)
    requires 1 <= j < |c| - 1 && j % 2 == 1 && c[j + 1] < i
    ensures KeptRun(z[..i + 1], c[j], c[j + 1])
  {
    assert KeptRun(z[..i], c[j], c[j + 1]);
    EarlierRun(z, i, c[j], c[j + 1]);
  }

  lemma StandingAscend(i: nat, c: seq<nat>, k: nat, d: seq<nat>)
    requires Ascending(i, c) && 1 <= k <= |c| && d == c[..k] + [i + 1]
    ensures Ascending(i + 1, d)
  {
    CutsIncrease(i, c, k - 1, |c| - 1);
    forall j | 1 <= j < |d| - 1 ensures d[j] < d[j + 1] { assert d[j] == c[j]; }
  }

  /** The word is of the kind of the last part. */
  lemma Extend(z: seq<bool>, i: nat, c: seq<nat>, d: seq<nat>)
    requires SplitSoFar(z, i, c) && i < |z| && d == c[..|c| - 1] + [i + 1]
    requires z[i] <==> |c| % 2 == 1
    ensures SplitSoFar(z, i + 1, d)
  {
    StandingAscend(i, c, |c| - 1, d);
    ExtendKept(z, i, c, d);
    ExtendCut(z, i, c, d);
  }

  lemma ExtendKept(z: seq<bool>, i: nat, c: seq<nat>, d: seq<nat>)
    requires i < |z| && Ascending(i, c) && OddPartsKept(z[..i], c) && d == c[..|c| - 1] + [i + 1]
    requires z[i] <==> |c| % 2 == 1
    ensures OddPartsKept(z[..i + 1], d)
  {
    var k := |c| - 2;
    CutsIncrease(i, c, k, k + 1);
    forall j | 1 <= j < |d| - 1 && j % 2 == 1 ensures KeptRun(z[..i + 1], d[j], d[j + 1]) {
      if j < k {
        CutsIncrease(i, c, j + 1, k);
        EarlierPartKept(z, i, c, j);
      } else {
        assert KeptRun(z[..i], c[k], c[k + 1]);
      }
    }
  }

  lemma ExtendCut(z: seq<bool>, i: nat, c: seq<nat>, d: seq<nat>)
    requires i < |z| && Ascending(i, c) && KeptRunsCut(z[..i], c) && d == c[..|c| - 1] + [i + 1]
    requires if i == 0 then !z[i] else z[i] == z[i - 1]
    ensures KeptRunsCut(z[..i + 1], d)
  {
    forall a, b | KeptRun(z[..i + 1], a, b) ensures IsOddPart(d, a, b) {
      if b < i {
        var j := EarlierRunCut(z, i, c, a, b);
        assert d[j] == a && d[j + 1] == b;
      } else {
        var j := LastRunCut(z, i, c, a, b);
        if j + 1 < |c| - 1 { CutsIncrease(i, c, j + 1, |c| - 1); }
        assert d[j] == a && d[j + 1] == b;
      }
    }
  }

  /** A zero part begins. */
  lemma AddZero(z: seq<bool>, i: nat, c: seq<nat>, d: seq<nat>)
    requires SplitSoFar(z, i, c) && i < |z| && d == c + [i + 1]
    requires z[i] && |c| % 2 == 0
    ensures SplitSoFar(z, i + 1, d)
  {
    assert c[..|c|] == c;
    StandingAscend(i, c, |c|, d);
    AddZeroKept(z, i, c, d);
    AddZeroCut(z, i, c, d);
  }

  lemma AddZeroKept(z: seq<bool>, i: nat, c: seq<nat>, d: seq<nat>)
    requires i < |z| && Ascending(i, c) && OddPartsKept(z[..i], c) && d == c + [i + 1]
    requires z[i] && |c| % 2 == 0 && (i > 0 ==> !z[i - 1])
    ensures OddPartsKept(z[..i + 1], d)
  {
    var k := |c| - 2;
    forall j | 1 <= j < |d| - 1 && j % 2 == 1 ensures KeptRun(z[..i + 1], d[j], d[j + 1]) {
      if j < k {
        CutsIncrease(i, c, j + 1, k + 1);
        EarlierPartKept(z, i, c, j);
      }
    }
  }

  lemma AddZeroCut(z: seq<bool>, i: nat, c: seq<nat>, d: seq<nat>)
    requires i < |z| && Ascending(i, c) && KeptRunsCut(z[..i], c) && d == c + [i + 1]
    requires z[i] && |c| % 2 == 0 && (i > 0 ==> !z[i - 1])
    ensures KeptRunsCut(z[..i + 1], d)
  {
    forall a, b | KeptRun(z[..i + 1], a, b) ensures IsOddPart(d, a, b) {
      if b < i {
        var j := EarlierRunCut(z, i, c, a, b);
        assert d[j] == a && d[j + 1] == b;
      } else {
        assert d[|c| - 1] == a && d[|c|] == b;
      }
    }
  }

  /** A long zero part ends. */
  lemma AddLiteral(z: seq<bool>, i: nat, c: seq<nat>, d: seq<nat>)
    requires SplitSoFar(z, i, c) && i < |z| && d == c + [i + 1]
    requires !z[i] && |c| % 2 == 1 && i - c[|c| - 2] >= BIG
    ensures SplitSoFar(z, i + 1, d)
  {
    assert c[..|c|] == c;
    StandingAscend(i, c, |c|, d);
    AddLiteralKept(z, i, c, d);
    AddLiteralCut(z, i, c, d);
  }

  lemma AddLiteralKept(z: seq<bool>, i: nat, c: seq<nat>, d: seq<nat>)
    requires i < |z| && Ascending(i, c) && OddPartsKept(z[..i], c) && d == c + [i + 1]
    requires !z[i] && |c| % 2 == 1 && i - c[|c| - 2] >= BIG
    ensures OddPartsKept(z[..i + 1], d)
  {
    var k := |c| - 2;
    forall j | 1 <= j < |d| - 1 && j % 2 == 1 ensures KeptRun(z[..i + 1], d[j], d[j + 1]) {
      if j < k {
        CutsIncrease(i, c, j + 1, k + 1);
        EarlierPartKept(z, i, c, j);
      } else {
        assert KeptRun(z[..i], c[k], c[k + 1]);
      }
    }
  }

  lemma AddLiteralCut(z: seq<bool>, i: nat, c: seq<nat>, d: seq<nat>)
    requires i < |z| && KeptRunsCut(z[..i], c) && d == c + [i + 1] && !z[i]
    ensures KeptRunsCut(z[..i + 1], d)
  {
    forall a, b | KeptRun(z[..i + 1], a, b) ensures IsOddPart(d, a, b) {
      if b < i {
        var j := EarlierRunCut(z, i, c, a, b);
        assert d[j] == a && d[j + 1] == b;
      } else {
        var j := LastRunCut(z, i, c, a, b);
        assert d[j] == a && d[j + 1] == b;
      }
    }
  }

  /** A short zero part is taken back. */
  lemma TakeBack(z: seq<bool>, i: nat, c: seq<nat>, d: seq<nat>)
    requires SplitSoFar(z, i, c) && i < |z| && |c| > 2 && d == c[..|c| - 2] + [i + 1]
    requires !z[i] && |c| % 2 == 1 && i - c[|c| - 2] < BIG
    ensures SplitSoFar(z, i + 1, d)
  {
    var k := |c| - 2;
    StandingAscend(i, c, k, d);
    forall j | 1 <= j < |d| - 1 && j % 2 == 1 ensures KeptRun(z[..i + 1], d[j], d[j + 1]) {
      assert j + 1 < k;
      CutsIncrease(i, c, j + 1, k + 1);
      EarlierPartKept(z, i, c, j);
    }
    assert KeptRun(z[..i], c[k], c[k + 1]);
    TakeBackCut(z, i, c, d);
  }

  lemma TakeBackCut(z: seq<bool>, i: nat, c: seq<nat>, d: seq<nat>)
    requires i < |z| && Ascending(i, c) && KeptRunsCut(z[..i], c) && |c| > 2 && d == c[..|c| - 2] + [i + 1]
    requires !z[i] && |c| % 2 == 1 && i - c[|c| - 2] < BIG && MaximalRun(z[..i], c[|c| - 2], i)
    ensures KeptRunsCut(z[..i + 1], d)
  {
    forall a, b | KeptRun(z[..i + 1], a, b) ensures IsOddPart(d, a, b) {
      NoRunEnds(z, i, c[|c| - 2], a, b);
      var j := EarlierRunCut(z, i, c, a, b);
      assert d[j] == a && d[j + 1] == b;
    }
  }

  /** The run of zeros that ends here is too short to be kept. */
  lemma NoRunEnds(z: seq<bool>, i: nat, s: int, a: int, b: int)
    requires i < |z| && !z[i] && MaximalRun(z[..i], s, i) && i - s < BIG && KeptRun(z[..i + 1], a, b)
    ensures b < i
  {
    SameStart(z[..i], a, s, i);
  }

  lemma SameStart(z: seq<bool>, a: int, a': int, b: int)
    ensures MaximalRun(z, a, b) && MaximalRun(z, a', b) ==> a == a'
  {
  }

  /** How many cuts the next word leaves standing. */
  function Standing(zeroWord: bool, i: nat, cuts: seq<nat>): (k: nat)
    requires |cuts| >= 2
    ensures 1 <= k <= |cuts|
  {
    if zeroWord == (|cuts| % 2 == 1) then |cuts| - 1
    else if !zeroWord && |cuts| > 2 && i - cuts[|cuts| - 2] < BIG then |cuts| - 2
    else |cuts|
  }

  function NextCuts(zeroWord: bool, i: nat, cuts: seq<nat>): (c: seq<nat>)
    requires |cuts| >= 2
    ensures |c| >= 2
  {
    cuts[..Standing(zeroWord, i, cuts)] + [i + 1]
  }

  /** The cuts after one pass over the first i words. */
  function CutsUpTo(z: seq<bool>, i: nat): (c: seq<nat>)
    requires i <= |z|
    ensures |c| >= 2
  {
    if i == 0 then [0, 0] else NextCuts(z[i - 1], i - 1, CutsUpTo(z, i - 1))
  }

  function Cuts(z: seq<bool>): seq<nat> {
    CutsUpTo(z, |z|)
  }

  lemma NextCutsSplit(z: seq<bool>, i: nat, c: seq<nat>, d: seq<nat>)
    requires i < |z| && SplitSoFar(z, i, c) && d == NextCuts(z[i], i, c)
    ensures SplitSoFar(z, i + 1, d)
  {
    if z[i] == (|c| % 2 == 1) {
      Extend(z, i, c, d);
    } else if z[i] {
      assert c[..|c|] == c;
      AddZero(z, i, c, d);
    } else if i - c[|c| - 2] < BIG {
      TakeBack(z, i, c, d);
    } else {
      assert c[..|c|] == c;
      AddLiteral(z, i, c, d);
    }
  }

  lemma {:induction false} CutsUpToSplit(z: seq<bool>, i: nat)
    requires i <= |z|
    ensures SplitSoFar(z, i, CutsUpTo(z, i))
  {
    if i > 0 {
      CutsUpToSplit(z, i - 1);
      NextCutsSplit(z, i - 1, CutsUpTo(z, i - 1), CutsUpTo(z, i));
    }
  }

  /** The pass computes the canonical decomposition. */
  lemma CutsCanonical(z: seq<bool>, c: seq<nat>)
    ensures Canonical(z, c) <==> c == Cuts(z)
  {
    CutsUpToSplit(z, |z|);
    assert z[..|z|] == z;
    if Canonical(z, c) { CanonicalUnique(z, c, Cuts(z)); }
  }

  // ---------- Sizes ----------

  /** The most parts an image of n words is cut into, the terminator included. */
  function MaxParts(n: nat): nat {
    2 * (n / 129) + 3
  }

  /** Every zero part but the last is followed by a word, so it and that word take at least 129. */
  lemma ZeroPartLong(z: seq<bool>, cuts: seq<nat>, j: nat)
    requires Canonical(z, cuts) && j % 2 == 1 && j + 2 < |cuts|
    ensures cuts[j + 2] >= cuts[j] + 129
  {
    assert KeptRun(z, cuts[j], cuts[j + 1]);
    CutsIncrease(|z|, cuts, j + 1, j + 2);
    CutsIncrease(|z|, cuts, j + 2, |cuts| - 1);
  }

  lemma {:induction false} EvenCutBound(z: seq<bool>, cuts: seq<nat>, k: nat, j: nat)
    requires Canonical(z, cuts) && j == 2 * k + 1 < |cuts|
    ensures cuts[j] >= 129 * k
  {
    if k > 0 {
      EvenCutBound(z, cuts, k - 1, j - 2);
      ZeroPartLong(z, cuts, j - 2);
    }
  }

  /** The number of parts, the terminator included. */
  lemma PartCountBound(z: seq<bool>, cuts: seq<nat>)
    requires Canonical(z, cuts)
    ensures |cuts| <= MaxParts(|z|)
  {
    var k := (|cuts| - 2) / 2;
    EvenCutBound(z, cuts, k, 2 * k + 1);
    CutsIncrease(|z|, cuts, 2 * k + 1, |cuts| - 1);
  }

  /** What the pass needs to know about the cuts it has made. */
  ghost predicate Shape(z: seq<bool>, i: nat, c: seq<nat>) {
    i <= |z| && 2 <= |c| && c[|c| - 1] == i >= c[|c| - 2] && (|c| % 2 == 1 <==> i > 0 && z[i - 1])
  }

  lemma CutsShape(z: seq<bool>, i: nat)
    requires i <= |z|
    ensures Shape(z, i, CutsUpTo(z, i)) && |CutsUpTo(z, i)| <= MaxParts(|z|)
  {
    CutsUpToSplit(z, i);
    var c := CutsUpTo(z, i);
    CutsIncrease(i, c, |c| - 2, |c| - 1);
    PartCountBound(z[..i], c);
    assert i / 129 <= |z| / 129;
  }

  function Max(a: nat, b: nat): nat {
    if a < b then b else a
  }

  /** The largest index in use during the first i words; a part taken back has been in use. */
  function PeakUpTo(z: seq<bool>, i: nat): nat
    requires i <= |z|
  {
    if i == 0 then 0 else Max(PeakUpTo(z, i - 1), |CutsUpTo(z, i)| - 2)
  }

  /** The largest index in use at all, counting the part that ends the list. */
  function Peak(z: seq<bool>): nat {
    Max(PeakUpTo(z, |z|), |Cuts(z)| - 1)
  }

  lemma {:induction false} PeakUpToBound(z: seq<bool>, i: nat)
    requires i <= |z|
    ensures PeakUpTo(z, i) + 2 <= MaxParts(|z|)
  {
    if i > 0 {
      PeakUpToBound(z, i - 1);
      CutsShape(z, i);
    }
  }

  /** No index, not even a passing one, goes beyond what the number of words allows. */
  lemma PeakBound(z: seq<bool>)
    ensures Peak(z) + 1 <= MaxParts(|z|)
  {
    PeakUpToBound(z, |z|);
    CutsShape(z, |z|);
  }

  /** c and peak are those of the first i words. */
  ghost predicate PassedTo(z: seq<bool>, i: nat, c: seq<nat>, peak: nat) {
    forall k: nat {:trigger CutsUpTo(z, k)} | k == i <= |z| :: c == CutsUpTo(z, k) && peak == PeakUpTo(z, k)
  }

  lemma PassBegins(z: seq<bool>)
    ensures PassedTo(z, 0, [0, 0], 0) && Shape(z, 0, [0, 0])
  {
    assert CutsUpTo(z, 0) == [0, 0] && PeakUpTo(z, 0) == 0;
  }

  lemma CutsNext(z: seq<bool>, i: nat, c: seq<nat>, peak: nat, c': seq<nat>)
    requires i < |z| && c == CutsUpTo(z, i) && peak == PeakUpTo(z, i) && c' == NextCuts(z[i], i, c)
    ensures c' == CutsUpTo(z, i + 1) && Max(peak, |c'| - 2) == PeakUpTo(z, i + 1)
  {
  }

  lemma PassNext(z: seq<bool>, i: nat, zeroWord: bool, c: seq<nat>, peak: nat) returns (c': seq<nat>)
    requires i < |z| && zeroWord == z[i] && PassedTo(z, i, c, peak) && Shape(z, i, c)
    ensures c' == NextCuts(zeroWord, i, c) && PassedTo(z, i + 1, c', Max(peak, |c'| - 2)) && Shape(z, i + 1, c')
  {
    assert c == CutsUpTo(z, i);
    c' := NextCuts(zeroWord, i, c);
    CutsNext(z, i, c, peak, c');
    CutsShape(z, i + 1);
  }

  lemma PassEnds(z: seq<bool>, c: seq<nat>, peak: nat)
    requires PassedTo(z, |z|, c, peak)
    ensures c == Cuts(z) && |c| >= 2 && Max(peak, |c| - 1) == Peak(z)
  {
    assert c == CutsUpTo(z, |z|);
  }

  /** The capacity of the array after k doublings. */
  function Doubled(k: nat): nat {
    if k == 0 then 8 else 2 * Doubled(k - 1)
  }

  ghost predicate DoubledFromEight(n: nat) {
    exists k: nat :: n == Doubled(k)
  }

  lemma DoubleAgain(n: nat)
    requires DoubledFromEight(n)
    ensures n > 0 && DoubledFromEight(2 * n)
  {
    var k: nat :| n == Doubled(k);
    assert 2 * n == Doubled(k + 1);
    DoubledPositive(k);
  }

  lemma DoubledPositive(k: nat)
    ensures Doubled(k) > 0
  {
  }

  /** The capacity grows only when the array is full. */
  ghost predicate Capacity(size: nat, peak: nat) {
    DoubledFromEight(size) && (size == 8 || size <= 2 * (peak + 1))
  }

  lemma CapacityKept(size: nat, peak: nat, current: nat)
    requires Capacity(size, peak)
    ensures Capacity(size, Max(peak, current))
  {
  }

  // ---------- The pass ----------

  method AllocateParts(original: array<BinPart>, newCount: nat, pSize: nat, ghost peak: nat)
      returns (parts: array<BinPart>, newSize: nat)
    requires pSize == original.Length && 0 < newCount <= pSize
    requires Capacity(pSize, peak)
    ensures Capacity(newSize, Max(peak, newCount - 1))
    ensures newSize == parts.Length > newCount
    ensures newCount < pSize ==> parts == original
    ensures newCount == pSize ==> fresh(parts) && newSize == 2 * pSize
    ensures parts[..pSize] == original[..]
  {
    if newCount < pSize {
      return original, pSize;
    }
    newSize := pSize * 2;
    DoubleAgain(pSize);
    parts := new BinPart[newSize];
    forall i | 0 <= i < pSize {
      parts[i] := original[i];
    }
  }

  /** q holds the parts between the first k cuts, which are left standing, and one more up to e. */
  lemma PartsOfNext(q: seq<BinPart>, c: seq<nat>, k: nat, e: nat)
    requires 1 <= k <= |c| && |q| == k && q[..k - 1] == PartsOf(c)[..k - 1] && q[k - 1] == PartOf(k - 1, c[k - 1], e)
    ensures q == PartsOf(c[..k] + [e])
  {
    forall j | 0 <= j < k ensures q[j] == PartsOf(c[..k] + [e])[j] {
      if j < k - 1 { assert q[j] == q[..k - 1][j] && PartsOf(c)[j] == PartsOf(c)[..k - 1][j]; }
    }
  }

  method NewPart(parts: array<BinPart>, partSize: nat, current: nat, addr: Address, ghost peak: nat)
      returns (parts': array<BinPart>, partSize': nat)
    requires current < partSize == parts.Length && Capacity(partSize, peak)
    modifies parts
    ensures Capacity(partSize', Max(peak, current)) && partSize' == parts'.Length > current + 1
    ensures parts' == parts || fresh(parts')
    ensures parts'[..current] == old(parts[..current]) && parts'[current] == BinPart(addr, 0)
  {
    parts', partSize' := AllocateParts(parts, current + 1, partSize, peak);
    parts'[current] := BinPart(addr, 0);
  }

  lemma PartAt(p: seq<BinPart>, c: seq<nat>, k: nat)
    requires |c| >= 2 && p == PartsOf(c) && k < |p|
    ensures p[k] == PartOf(k, c[k], c[k + 1])
  {
  }

  lemma PartSize(parts: array<BinPart>, c: seq<nat>, k: nat)
    requires |c| == k + 2 && k < parts.Length && parts[..k + 1] == PartsOf(c)
    ensures parts[k].size < 512 <==> c[k + 1] - c[k] < BIG
  {
    assert parts[k] == parts[..k + 1][k];
  }

  /** The part before the current one takes it over. */
  method TakeBackPart(parts: array<BinPart>, current: nat, ghost c: seq<nat>, ghost idx: nat)
    requires 0 < current < parts.Length && |c| == current + 2 && c[current + 1] == idx
    requires parts[..current + 1] == PartsOf(c)
    modifies parts
    ensures parts[..current] == PartsOf(c[..current] + [idx])
  {
    ghost var p := parts[..current + 1];
    PartAt(p, c, current - 1);
    PartAt(p, c, current);
    parts[current - 1] := parts[current - 1].(size := parts[current - 1].size + parts[current].size);
    parts[current] := parts[current].(size := 0);
    assert parts[..current - 1] == p[..current - 1];
    PartsOfNext(parts[..current], c, current, idx);
  }

  /** Behind the parts between the cuts, an empty one. */
  method BeginPart(parts: array<BinPart>, partSize: nat, current: nat, addr: Address, ghost c: seq<nat>, ghost idx: nat,
                   ghost peak: nat)
      returns (parts': array<BinPart>, partSize': nat)
    requires current < partSize == parts.Length && Capacity(partSize, peak)
    requires |c| == current + 1 > 0 && c[current] == idx && parts[..current] == PartsOf(c)
    requires addr == if current % 2 == 0 then At(4 * idx) else Null
    modifies parts
    ensures Capacity(partSize', Max(peak, current)) && partSize' == parts'.Length > current + 1
    ensures parts' == parts || fresh(parts')
    ensures parts'[..current + 1] == PartsOf(c[..current + 1] + [idx])
  {
    ghost var p := parts[..current];
    parts', partSize' := NewPart(parts, partSize, current, addr, peak);
    assert parts'[..current + 1][..current] == p;
    PartsOfNext(parts'[..current + 1], c, current + 1, idx);
  }

  /** What the next word does to the cuts, in the terms of the pass. */
  lemma StandingCases(c: seq<nat>, zero: bool, zeroWord: bool, idx: nat, k: nat)
    requires |c| >= 2 && (zero <==> |c| % 2 == 1) && k == Standing(zeroWord, idx, c)
    ensures k == if zero && !zeroWord then if idx - c[|c| - 2] < BIG then |c| - 2 else |c|
                 else if !zero && zeroWord then |c|
                 else |c| - 1
  {
  }

  /** Goes on with the current part, begins another one, or takes back a zero part that is too short. */
  method SwitchPart(parts: array<BinPart>, partSize: nat, current: nat, zero: bool, word: bv32, idx: nat,
                    ghost c: seq<nat>, ghost peak: nat)
      returns (parts': array<BinPart>, partSize': nat, current': nat)
    requires partSize == parts.Length > current + 1
    requires |c| == current + 2 && c[current + 1] == idx && parts[..current + 1] == PartsOf(c)
    requires zero <==> |c| % 2 == 1
    requires Capacity(partSize, peak)
    modifies parts
    ensures Capacity(partSize', Max(peak, current'))
    ensures parts' == parts || fresh(parts')
    ensures partSize' == parts'.Length > current' + 1 && current' == Standing(word == 0, idx, c) - 1
    ensures parts'[..current' + 1] == PartsOf(c[..current' + 1] + [idx])
  {
    ghost var k := Standing(word == 0, idx, c);
    StandingCases(c, zero, word == 0, idx, k);
    PartSize(parts, c, current);
    if zero && word != 0 {
      if parts[current].size < 512 {
        TakeBackPart(parts, current, c, idx);
        CapacityKept(partSize, peak, current - 1);
        return parts, partSize, current - 1;
      }
      parts', partSize' := BeginPart(parts, partSize, current + 1, At(4 * idx), c, idx, peak);
      return parts', partSize', current + 1;
    }
    if !zero && word == 0 {
      parts', partSize' := BeginPart(parts, partSize, current + 1, Null, c, idx, peak);
      return parts', partSize', current + 1;
    }
    assert c[..current + 1] + [idx] == c;
    CapacityKept(partSize, peak, current);
    return parts, partSize, current;
  }

  /** The body of the loop: takes in one word. */
  method AddWord(parts: array<BinPart>, partSize: nat, current: nat, zero: bool, word: bv32, idx: nat,
                 ghost c: seq<nat>, ghost peak: nat)
      returns (parts': array<BinPart>, partSize': nat, current': nat)
    requires partSize == parts.Length > current + 1
    requires |c| == current + 2 && c[current + 1] == idx && parts[..current + 1] == PartsOf(c)
    requires zero <==> |c| % 2 == 1
    requires Capacity(partSize, peak)
    modifies parts
    ensures Capacity(partSize', Max(peak, current'))
    ensures parts' == parts || fresh(parts')
    ensures partSize' == parts'.Length > current' + 1
    ensures parts'[..current' + 1] == PartsOf(NextCuts(word == 0, idx, c))
  {
    parts', partSize', current' := SwitchPart(parts, partSize, current, zero, word, idx, c, peak);
    LastPartGrows(c, current' + 1, idx);
    assert parts'[current'] == parts'[..current' + 1][current'];
    parts'[current'] := parts'[current'].(size := parts'[current'].size + 4);
  }

  lemma LastPartGrows(c: seq<nat>, k: nat, idx: nat)
    requires 1 <= k <= |c|
    ensures var p := PartsOf(c[..k] + [idx]);
      p[k - 1] == PartOf(k - 1, c[k - 1], idx) &&
      PartsOf(c[..k] + [idx + 1]) == p[k - 1 := p[k - 1].(size := p[k - 1].size + 4)]
  {
  }

  /** Splits the words held by a buffer of so many bytes; a last incomplete word is ignored. */
  method SplitBinary(sdata: seq<bv32>, dataSize: nat) returns (parts: array<BinPart>)
    requires |sdata| == dataSize / 4
    ensures fresh(parts)
    ensures var p := PartsOf(Cuts(ZeroWords(sdata)));
      |p| < parts.Length && parts[..|p|] == p && parts[|p|] == TERMINATOR
    ensures Capacity(parts.Length, Peak(ZeroWords(sdata)))
  {
    var words := dataSize / 4;
    var partSize: nat := 8;
    var current: nat := 0;
    parts := new BinPart[partSize];
    var zero := false;
    parts[current] := BinPart(At(0), 0);

    ghost var z, c, peak := ZeroWords(sdata), [0, 0], 0;
    assert partSize == Doubled(0);
    PassBegins(z);
    for idx := 0 to words
      invariant fresh(parts) && partSize == parts.Length > current + 1 && Capacity(partSize, peak)
      invariant PassedTo(z, idx, c, peak) && Shape(z, idx, c) && parts[..current + 1] == PartsOf(c)
      invariant zero <==> |c| % 2 == 1
    {
      ghost var c' := PassNext(z, idx, sdata[idx] == 0, c, peak);
      parts, partSize, current := AddWord(parts, partSize, current, zero, sdata[idx], idx, c, peak);
      zero := sdata[idx] == 0;
      c, peak := c', Max(peak, |c'| - 2);
    }

    PassEnds(z, c, peak);
    current := current + 1;
    parts, partSize := NewPart(parts, partSize, current, Null, peak);
  }
}
