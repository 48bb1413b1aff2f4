/** What the upload of a binary image leaves in memory (client/binary_loader.c, client/bootproto.c). */
module BinaryImage {
  import opened Bytes
  import opened Memory
  import opened Protocol
  import opened BinarySplit
  import opened BinaryLoad

  // ---------- The bytes of the parts ----------

  /** What part j stores: its piece of the file, or so much of the fill. */
  function PartBytes(data: seq<byte>, beef: bool, c: seq<nat>, j: nat): (d: seq<byte>)
    requires j + 1 < |c| && Ordered(c, j, |data|)
    ensures |d| == 4 * c[j + 1] - 4 * c[j]
  {
    if j % 2 == 0 then data[4 * c[j]..4 * c[j + 1]] else Fill(FillPattern(beef), 4 * c[j + 1] - 4 * c[j])
  }

  /** All of them. */
  function PartList(data: seq<byte>, beef: bool, c: seq<nat>): (p: seq<seq<byte>>)
    requires CutsOf(|data|, c)
    ensures |p| == |c| - 1
  {
    seq(|c| - 1, j requires 0 <= j < |c| - 1 => assert Ordered(c, j, |data|); PartBytes(data, beef, c, j))
  }

  lemma PartLength(data: seq<byte>, beef: bool, c: seq<nat>, j: nat)
    requires CutsOf(|data|, c) && j + 1 < |c|
    ensures Ordered(c, j, |data|) && PartList(data, beef, c)[j] == PartBytes(data, beef, c, j)
    ensures |PartList(data, beef, c)[j]| == 4 * c[j + 1] - 4 * c[j]
  {
    assert Ordered(c, j, |data|);
  }

  lemma {:induction false} JoinedLength(p: seq<seq<byte>>, c: seq<nat>, k: nat)
    requires k < |c| && k <= |p| && c[0] == 0
    requires forall j {:trigger p[j]} | 0 <= j < k :: |p[j]| + 4 * c[j] == 4 * c[j + 1]
    ensures |Joined(p, k)| == 4 * c[k]
  {
    if k > 0 { JoinedLength(p, c, k - 1); }
  }

  lemma FilledLength(data: seq<byte>, beef: bool, c: seq<nat>, k: nat)
    requires CutsOf(|data|, c) && k < |c|
    ensures |Joined(PartList(data, beef, c), k)| == 4 * c[k]
  {
    var p := PartList(data, beef, c);
    forall j | 0 <= j < k ensures |p[j]| + 4 * c[j] == 4 * c[j + 1] { PartLength(data, beef, c, j); }
    JoinedLength(p, c, k);
  }

  /** What the first k parts store, one behind the other. */
  function Filled(data: seq<byte>, beef: bool, c: seq<nat>, k: nat): (d: seq<byte>)
    requires CutsOf(|data|, c) && k < |c|
    ensures |d| == 4 * c[k]
  {
    FilledLength(data, beef, c, k);
    Joined(PartList(data, beef, c), k)
  }

  lemma PartEffect(mem: Memory, e: u32, data: seq<byte>, beef: bool, c: seq<nat>, j: nat)
    requires |data| < 0x8000_0000 && j + 1 < |c| && Ordered(c, j, |data|)
    ensures Effect(PartRequest(data, e, beef, j, c[j], c[j + 1]), mem)
         == Write(mem, Moved(e, 4 * c[j]), PartBytes(data, beef, c, j))
  {
  }

  /** d is stored from e on; what is stored next lies behind it. */
  lemma WriteBehind(mem: Memory, e: u32, a: u32, d: seq<byte>, next: seq<byte>)
    requires a == Moved(e, |d|) && |d| + |next| <= SPACE
    ensures Write(Write(mem, e, d), a, next) == Write(mem, e, d + next)
  {
    WriteWrapped(Write(mem, e, d), e + |d|, next);
    WriteConcat(mem, e, d, next);
  }

  lemma PartStored(mem: Memory, e: u32, data: seq<byte>, beef: bool, c: seq<nat>, j: nat, d: seq<byte>, p: seq<byte>,
                   r: Request)
    requires |data| < 0x8000_0000 && j + 1 < |c| && Ordered(c, j, |data|) && |d| == 4 * c[j]
    requires p == PartBytes(data, beef, c, j) && r == PartRequest(data, e, beef, j, c[j], c[j + 1])
    ensures Effect(r, Write(mem, e, d)) == Write(mem, e, d + p)
  {
    PartEffect(Write(mem, e, d), e, data, beef, c, j);
    WriteBehind(mem, e, Moved(e, 4 * c[j]), d, p);
  }

  lemma FilledNext(data: seq<byte>, beef: bool, c: seq<nat>, k: nat) returns (d: seq<byte>, p: seq<byte>)
    requires CutsOf(|data|, c) && 0 < k < |c|
    ensures Ordered(c, k - 1, |data|) && d == Filled(data, beef, c, k - 1) && p == PartBytes(data, beef, c, k - 1)
    ensures Filled(data, beef, c, k) == d + p && |d| == 4 * c[k - 1]
  {
    PartLength(data, beef, c, k - 1);
    d, p := Filled(data, beef, c, k - 1), PartBytes(data, beef, c, k - 1);
  }

  lemma RequestAt(e: u32, data: seq<byte>, beef: bool, c: seq<nat>, j: nat) returns (r: Request)
    requires |data| < 0x8000_0000 && CutsOf(|data|, c) && j + 1 < |c| && Ordered(c, j, |data|)
    ensures r == PartRequests(data, e, beef, c)[j] && r == PartRequest(data, e, beef, j, c[j], c[j + 1])
  {
    r := PartRequest(data, e, beef, j, c[j], c[j + 1]);
  }

  lemma NextEffect(s: seq<Request>, k: nat, mem: Memory, before: Memory, after: Memory)
    requires 0 < k <= |s| && EffectAll(s[..k - 1], mem) == before && Effect(s[k - 1], before) == after
    ensures EffectAll(s[..k], mem) == after
  {
    EffectLast(s, k, mem);
  }

  lemma PartNext(mem: Memory, e: u32, data: seq<byte>, beef: bool, c: seq<nat>, k: nat, s: seq<Request>)
    requires |data| < 0x8000_0000 && CutsOf(|data|, c) && 0 < k < |c| && s == PartRequests(data, e, beef, c)
    requires EffectAll(s[..k - 1], mem) == Write(mem, e, Filled(data, beef, c, k - 1))
    ensures EffectAll(s[..k], mem) == Write(mem, e, Filled(data, beef, c, k))
  {
    assert Ordered(c, k - 1, |data|);
    var r := RequestAt(e, data, beef, c, k - 1);
    var d, p := FilledNext(data, beef, c, k);
    PartStored(mem, e, data, beef, c, k - 1, d, p, r);
    NextEffect(s, k, mem, Write(mem, e, d), Write(mem, e, d + p));
  }

  /** Any number of parts stores their bytes from the load address on, whichever fill is asked for. */
  lemma {:induction false} PartsEffect(mem: Memory, e: u32, data: seq<byte>, beef: bool, c: seq<nat>, k: nat)
    requires |data| < 0x8000_0000 && CutsOf(|data|, c) && k < |c|
    ensures EffectAll(PartRequests(data, e, beef, c)[..k], mem) == Write(mem, e, Filled(data, beef, c, k))
  {
    if k == 0 {
      WriteNothing(mem, e);
    } else {
      PartsEffect(mem, e, data, beef, c, k - 1);
      PartNext(mem, e, data, beef, c, k, PartRequests(data, e, beef, c));
    }
  }

  // ---------- The image ----------

  /** What an upload stores: nothing, or all parts. */
  function StoredImage(data: seq<byte>, beef: bool): seq<byte> {
    FileCutsOrdered(data);
    var c := FileCuts(data);
    if c[1] == 0 then [] else Filled(data, beef, c, |c| - 1)
  }

  lemma AllPartsEffect(mem: Memory, e: u32, data: seq<byte>, beef: bool, c: seq<nat>)
    requires |data| < 0x8000_0000 && CutsOf(|data|, c)
    ensures EffectAll(PartRequests(data, e, beef, c), mem) == Write(mem, e, Filled(data, beef, c, |c| - 1))
  {
    var s := PartRequests(data, e, beef, c);
    PartsEffect(mem, e, data, beef, c, |c| - 1);
    assert s[..|c| - 1] == s;
  }

  /** The effect of an upload, for every image and either fill. */
  lemma UploadEffect(mem: Memory, e: u32, data: seq<byte>, beef: bool)
    requires |data| < 0x8000_0000
    ensures EffectAll(BinaryScript(data, e, beef), mem) == Write(mem, e, StoredImage(data, beef))
  {
    FileCutsOrdered(data);
    if FileCuts(data)[1] == 0 {
      WriteNothing(mem, e);
    } else {
      PartsSent(e, data, beef);
      AllPartsEffect(mem, e, data, beef, FileCuts(data));
    }
  }

  lemma SentLength(data: seq<byte>, beef: bool)
    ensures |StoredImage(data, beef)| == if FileCuts(data)[1] > 0 then |Image(data)| else 0
  {
    FileCutsOrdered(data);
  }

  /** How much is stored. */
  lemma StoredLength(data: seq<byte>, beef: bool)
    ensures |StoredImage(data, beef)| == UploadLength(data)
  {
    SentLength(data, beef);
    UploadableCuts(data);
  }

  // ---------- When it is the image of the file ----------

  lemma ZeroBytes(s: seq<byte>)
    requires |s| == 4 && FromLE32(s) == 0
    ensures s == [0, 0, 0, 0]
  {
    assert s[0] == 0 && s[1] == 0 && s[2] == 0 && s[3] == 0;
  }

  lemma FillZero(n: nat)
    ensures Fill(0, n) == seq(n, _ => 0)
  {
    assert LE32(0) == [0, 0, 0, 0];
  }

  lemma ZeroRun(data: seq<byte>, a: nat, b: nat)
    requires a <= b && 4 * b <= |data|
    requires forall i | a <= i < b :: ZeroWords(Words(data))[i]
    ensures data[4 * a..4 * b] == Fill(0, 4 * (b - a))
  {
    FillZero(4 * (b - a));
    forall k | 0 <= k < 4 * (b - a) ensures data[4 * a..4 * b][k] == 0 {
      var i := a + k / 4;
      assert ZeroWords(Words(data))[i];
      ZeroBytes(data[4 * i..4 * i + 4]);
      assert data[4 * a + k] == data[4 * i..4 * i + 4][k % 4];
    }
  }

  lemma ZeroPart(data: seq<byte>, c: seq<nat>, j: nat)
    requires CutsOf(|data|, c) && OddPartsKept(ZeroWords(Words(data)), c) && j + 1 < |c| && j % 2 == 1
    requires Ordered(c, j, |data|)
    ensures data[4 * c[j]..4 * c[j + 1]] == Fill(0, 4 * c[j + 1] - 4 * c[j]) && c[j] < c[j + 1]
  {
    assert KeptRun(ZeroWords(Words(data)), c[j], c[j + 1]);
    ZeroRun(data, c[j], c[j + 1]);
  }

  /** A part that is sent, or that is zeros for zeros, is a piece of the file. */
  lemma PlainPart(data: seq<byte>, beef: bool, c: seq<nat>, j: nat)
    requires CutsOf(|data|, c) && OddPartsKept(ZeroWords(Words(data)), c) && j + 1 < |c| && (beef ==> j == 0)
    requires Ordered(c, j, |data|)
    ensures PartBytes(data, beef, c, j) == data[4 * c[j]..4 * c[j + 1]]
  {
    if j % 2 == 1 { ZeroPart(data, c, j); }
  }

  lemma PiecesJoined(data: seq<byte>, a: nat, b: nat)
    requires a <= b <= |data|
    ensures data[..a] + data[a..b] == data[..b]
  {
  }

  /** Where zero parts are filled with zeros, or there are none, the parts are the file up to the last cut. */
  lemma {:induction false} FilledPlain(data: seq<byte>, beef: bool, c: seq<nat>, k: nat)
    requires CutsOf(|data|, c) && OddPartsKept(ZeroWords(Words(data)), c) && k < |c| && (beef ==> k <= 1)
    ensures 4 * c[k] <= |data| && Filled(data, beef, c, k) == data[..4 * c[k]]
  {
    if k > 0 {
      FilledPlain(data, beef, c, k - 1);
      var d, p := FilledNext(data, beef, c, k);
      PlainPart(data, beef, c, k - 1);
      PiecesJoined(data, 4 * c[k - 1], 4 * c[k]);
    }
  }

  /** Byte o of piece j, among those of the first k pieces; n bytes are before it. */
  lemma {:induction false} JoinedAt(p: seq<seq<byte>>, k: nat, j: nat, n: nat, i: nat, o: nat)
    requires j < k <= |p| && o < |p[j]| && n == |Joined(p, j)| && i == n + o
    ensures i < |Joined(p, k)| && Joined(p, k)[i] == p[j][o]
    decreases k
  {
    if j < k - 1 { JoinedAt(p, k - 1, j, n, i, o); }
  }

  lemma PartsJoined(data: seq<byte>, beef: bool, c: seq<nat>, k: nat, j: nat) returns (p: seq<seq<byte>>)
    requires CutsOf(|data|, c) && j < k < |c|
    ensures |p| >= k && Filled(data, beef, c, k) == Joined(p, k) && |Joined(p, j)| == 4 * c[j]
    ensures Ordered(c, j, |data|) && p[j] == PartBytes(data, beef, c, j)
  {
    p := PartList(data, beef, c);
    PartLength(data, beef, c, j);
    FilledLength(data, beef, c, j);
  }

  /** Byte o of part j, among those of the first k parts. */
  lemma FilledInPart(data: seq<byte>, beef: bool, c: seq<nat>, k: nat, j: nat, i: nat, o: nat)
    requires CutsOf(|data|, c) && j < k < |c| && Ordered(c, j, |data|)
    requires i == 4 * c[j] + o && o < |PartBytes(data, beef, c, j)|
    ensures i < |Filled(data, beef, c, k)| && Filled(data, beef, c, k)[i] == PartBytes(data, beef, c, j)[o]
  {
    var p := PartsJoined(data, beef, c, k, j);
    JoinedAt(p, k, j, 4 * c[j], i, o);
  }

  lemma BeefBytes()
    ensures LE32(FillPattern(true)) == [0xEF, 0xBE, 0xAD, 0xDE] && LE32(FillPattern(false)) == [0, 0, 0, 0]
  {
    var v: bv32 := 0xDEADBEEF;
    assert (v & 0xFF) as bv8 == 0xEF && ((v >> 8) & 0xFF) as bv8 == 0xBE;
    assert ((v >> 16) & 0xFF) as bv8 == 0xAD && (v >> 24) as bv8 == 0xDE;
  }

  /** The bytes of the fill, over and over. */
  function FillByte(beef: bool, m: nat): byte {
    if beef then [0xEF, 0xBE, 0xAD, 0xDE][m % 4] else 0
  }

  lemma FillByteAt(beef: bool, n: nat, m: nat)
    requires m < n
    ensures Fill(FillPattern(beef), n)[m] == FillByte(beef, m)
  {
    BeefBytes();
  }

  /** A zero part that is filled with 0xDEADBEEF is not the zeros of the file. */
  lemma BeefDiffers(data: seq<byte>, c: seq<nat>)
    requires CutsOf(|data|, c) && OddPartsKept(ZeroWords(Words(data)), c) && |c| > 2
    ensures Filled(data, true, c, |c| - 1) != Image(data)
  {
    var k, d := |c| - 1, Filled(data, true, c, |c| - 1);
    assert Ordered(c, 1, |data|);
    ZeroPart(data, c, 1);
    FilledInPart(data, true, c, k, 1, 4 * c[1], 0);
    FillByteAt(true, 4 * c[2] - 4 * c[1], 0);
    FillByteAt(false, 4 * c[2] - 4 * c[1], 0);
    assert d[4 * c[1]] == 0xEF;
    assert Image(data)[4 * c[1]] == data[4 * c[1]..4 * c[2]][0] == 0;
  }

  /** What is stored is the image exactly when something is sent, with zeros for zeros or no zero part. */
  lemma StoredIsImage(data: seq<byte>, beef: bool)
    ensures StoredImage(data, beef) == Image(data) <==> Uploadable(data) && (!beef || |FileCuts(data)| == 2)
  {
    var c := FileCuts(data);
    FileCutsOrdered(data);
    UploadableCuts(data);
    StoredLength(data, beef);
    if c[1] > 0 {
      if beef && |c| > 2 { BeefDiffers(data, c); } else { FilledPlain(data, beef, c, |c| - 1); }
    } else if |data| < 4 {
      assert |c| == 2 by { CutsIncrease(|data| / 4, c, 1, |c| - 1); }
    }
  }

  lemma BeefWord()
    ensures Fill(FillPattern(true), 4) == [0xEF, 0xBE, 0xAD, 0xDE]
  {
    BeefBytes();
    forall i | 0 <= i < 4 ensures Fill(FillPattern(true), 4)[i] == LE32(FillPattern(true))[i] { }
  }

  lemma TwoParts(data: seq<byte>, beef: bool, c: seq<nat>)
    requires c == [0, 1, 2] && |data| == 8
    ensures CutsOf(|data|, c) && Filled(data, beef, c, 2) == data[0..4] + Fill(FillPattern(beef), 4)
  {
    assert Ordered(c, 0, |data|) && Ordered(c, 1, |data|);
    var d0, p0 := FilledNext(data, beef, c, 1);
    var d1, p1 := FilledNext(data, beef, c, 2);
  }

  /** The smallest image that 0xDEADBEEF changes: a word and a zero word. */
  lemma BeefUpload(mem: Memory, e: u32)
    ensures var data := [1, 0, 0, 0, 0, 0, 0, 0];
      EffectAll(BinaryScript(data, e, true), mem) == Write(mem, e, [1, 0, 0, 0, 0xEF, 0xBE, 0xAD, 0xDE])
  {
    var data: seq<byte> := [1, 0, 0, 0, 0, 0, 0, 0];
    BeefStored(data);
    UploadEffect(mem, e, data, true);
  }

  lemma BeefStored(data: seq<byte>)
    requires data == [1, 0, 0, 0, 0, 0, 0, 0]
    ensures StoredImage(data, true) == [1, 0, 0, 0, 0xEF, 0xBE, 0xAD, 0xDE]
  {
    WordAndZero(data);
    TwoParts(data, true, [0, 1, 2]);
    BeefWord();
    assert data[0..4] == [1, 0, 0, 0];
  }

  /** The word belongs to a maximal run of zero words that is long enough, or reaches the end of the image. */
  ghost predicate KeptWord(z: seq<bool>, w: int) {
    exists a, b :: MaximalRun(z, a, b) && (b - a >= 128 || b == |z|) && a <= w < b
  }

  lemma SamePart(n: nat, c: seq<nat>, i: nat, j: nat, w: nat)
    requires Ascending(n, c) && i + 1 < |c| && j + 1 < |c| && c[i] <= w < c[i + 1] && c[j] <= w < c[j + 1]
    ensures i == j
  {
    if i < j { CutsIncrease(n, c, i + 1, j); }
    if j < i { CutsIncrease(n, c, j + 1, i); }
  }

  /** These words are those of the odd parts. */
  lemma KeptPart(z: seq<bool>, c: seq<nat>, j: nat, w: nat)
    requires Canonical(z, c) && j + 1 < |c| && c[j] <= w < c[j + 1]
    ensures KeptWord(z, w) <==> j % 2 == 1
  {
    if j % 2 == 1 { assert KeptRun(z, c[j], c[j + 1]); }
    if KeptWord(z, w) {
      var a, b :| MaximalRun(z, a, b) && (b - a >= 128 || b == |z|) && a <= w < b;
      assert KeptRun(z, a, b);
      var i := OddPartIndex(c, a, b);
      SamePart(|z|, c, i, j, w);
    }
  }

  lemma {:induction false} PartOfWord(size: nat, c: seq<nat>, k: nat, w: nat) returns (j: nat)
    requires CutsOf(size, c) && k < |c| && w < c[k]
    ensures j < k && c[j] <= w < c[j + 1]
  {
    if c[k - 1] <= w { return k - 1; }
    j := PartOfWord(size, c, k - 1, w);
  }

  lemma SamePhase(beef: bool, q: nat, o: nat, i: nat)
    requires i == 4 * q + o
    ensures FillByte(beef, o) == FillByte(beef, i)
  {
  }

  lemma FillInPart(beef: bool, q: nat, n: nat, o: nat, i: nat)
    requires o < n && i == 4 * q + o
    ensures Fill(FillPattern(beef), n)[o] == FillByte(beef, i)
  {
    FillByteAt(beef, n, o);
    SamePhase(beef, q, o, i);
  }

  lemma PieceAt(data: seq<byte>, from: nat, to: nat, o: nat, i: nat)
    requires from <= to <= |data| && i == from + o && o < to - from
    ensures data[from..to][o] == data[i]
  {
  }

  lemma PartByteAt(data: seq<byte>, beef: bool, c: seq<nat>, j: nat, i: nat, o: nat)
    requires j + 1 < |c| && Ordered(c, j, |data|) && i == 4 * c[j] + o && o < |PartBytes(data, beef, c, j)|
    ensures i < |data| && PartBytes(data, beef, c, j)[o] == if j % 2 == 0 then data[i] else FillByte(beef, i)
  {
    if j % 2 == 0 {
      PieceAt(data, 4 * c[j], 4 * c[j + 1], o, i);
    } else {
      FillInPart(beef, c[j], 4 * c[j + 1] - 4 * c[j], o, i);
    }
  }

  /** The part that the byte i belongs to, and which of its bytes it is. */
  lemma PartOfByte(size: nat, c: seq<nat>, i: nat) returns (j: nat, o: nat)
    requires CutsOf(size, c) && i < 4 * (size / 4)
    ensures j + 1 < |c| && Ordered(c, j, size) && c[j] <= i / 4 < c[j + 1]
    ensures i == 4 * c[j] + o && o < 4 * c[j + 1] - 4 * c[j]
  {
    j := PartOfWord(size, c, |c| - 1, i / 4);
    assert Ordered(c, j, size);
    o := i - 4 * c[j];
  }

  lemma FilledByte(data: seq<byte>, beef: bool, c: seq<nat>, k: nat, i: nat) returns (j: nat, b: byte)
    requires CutsOf(|data|, c) && k == |c| - 1 && i < 4 * (|data| / 4)
    ensures i < |data| && i < |Filled(data, beef, c, k)| && Filled(data, beef, c, k)[i] == b
    ensures j + 1 < |c| && c[j] <= i / 4 < c[j + 1] && b == if j % 2 == 0 then data[i] else FillByte(beef, i)
  {
    var o;
    j, o := PartOfByte(|data|, c, i);
    b := PartBytes(data, beef, c, j)[o];
    FilledInPart(data, beef, c, k, j, i, o);
    PartByteAt(data, beef, c, j, i, o);
  }

  lemma FilledAt(data: seq<byte>, beef: bool, c: seq<nat>, i: nat, z: seq<bool>)
    requires Canonical(z, c) && CutsOf(|data|, c) && i < 4 * (|data| / 4)
    ensures i < |data| && i < |Filled(data, beef, c, |c| - 1)|
    ensures Filled(data, beef, c, |c| - 1)[i] == if KeptWord(z, i / 4) then FillByte(beef, i) else data[i]
  {
    var j, b := FilledByte(data, beef, c, |c| - 1, i);
    KeptPart(z, c, j, i / 4);
  }

  /** What is stored, byte by byte: the fill for the words of long runs of zeros, and the file for all others. */
  lemma StoredAt(data: seq<byte>, beef: bool, i: nat)
    requires i < |StoredImage(data, beef)|
    ensures i < |data|
    ensures StoredImage(data, beef)[i] ==
      if !KeptWord(ZeroWords(Words(data)), i / 4) then data[i]
      else if beef then [0xEF, 0xBE, 0xAD, 0xDE][i % 4]
      else 0
  {
    FileCutsOrdered(data);
    FilledAt(data, beef, FileCuts(data), i, ZeroWords(Words(data)));
  }

  lemma WordBytes(s: seq<byte>)
    requires |s| == 4
    ensures FromLE32(s) == 0 <==> s[0] == 0 && s[1] == 0 && s[2] == 0 && s[3] == 0
  {
    if FromLE32(s) == 0 { ZeroBytes(s); }
  }

  /** A zero word is one of four zero bytes. */
  lemma ZeroWordAt(data: seq<byte>, w: nat)
    requires w < |data| / 4
    ensures |ZeroWords(Words(data))| == |data| / 4
    ensures ZeroWords(Words(data))[w] <==>
      data[4 * w] == 0 && data[4 * w + 1] == 0 && data[4 * w + 2] == 0 && data[4 * w + 3] == 0
  {
    WordBytes(data[4 * w..4 * w + 4]);
  }

  /** All whole words are stored if one of the first 512 bytes in them is not zero, and nothing if none is. */
  lemma StoredSize(data: seq<byte>, beef: bool)
    ensures |StoredImage(data, beef)|
         == if exists i :: 0 <= i < 4 * (|data| / 4) && i < 512 && data[i] != 0 then 4 * (|data| / 4) else 0
  {
    StoredLength(data, beef);
    if i :| 0 <= i < 4 * (|data| / 4) && i < 512 && data[i] != 0 {
      ZeroWordAt(data, i / 4);
    } else if |data| >= 4 {
      forall w | 0 <= w < |data| / 4 && w < BIG ensures Words(data)[w] == 0 { ZeroWordAt(data, w); }
    }
  }

  /** Memories after two stores from one address differ for some memory before, unless the bytes are the same. */
  lemma StoresDiffer(e: u32, d: seq<byte>, b: seq<byte>) returns (mem: Memory)
    requires d != b && |d| <= |b| <= SPACE
    ensures Write(mem, e, d) != Write(mem, e, b)
  {
    var i :| 0 <= i < |b| && (i < |d| ==> d[i] != b[i]) && (i >= |d| || d[i] != b[i]);
    var x := Moved(e, i);
    mem := seq(SPACE, _ => if b[i] == 0 then 1 else 0);
    OffsetUnique(x, e, i);
    WriteAt(mem, e, d, x);
    WriteAt(mem, e, b, x);
  }

  /**
   The upload does for every memory what one LOAD of all words would do, if and only if one of the first 128
   words is not zero, or there is no word, and no zero part is filled with 0xDEADBEEF.
   */
  lemma UploadIsImage(data: seq<byte>, e: u32, beef: bool)
    requires |data| < 0x8000_0000
    ensures (forall mem: Memory :: EffectAll(BinaryScript(data, e, beef), mem) == Write(mem, e, Image(data)))
      <==> Uploadable(data) && (!beef || |FileCuts(data)| == 2)
  {
    StoredIsImage(data, beef);
    StoredLength(data, beef);
    forall mem: Memory ensures EffectAll(BinaryScript(data, e, beef), mem) == Write(mem, e, StoredImage(data, beef)) {
      UploadEffect(mem, e, data, beef);
    }
    if StoredImage(data, beef) != Image(data) {
      var mem := StoresDiffer(e, StoredImage(data, beef), Image(data));
    }
  }
}
