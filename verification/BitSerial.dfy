/** The CRC register one bit at a time, highest-order term first (common/crc32.c:5-24). */
module BitSerial {
  import opened Gf2

  /** The exponents of the generator polynomial named in the header comment. */
  const EXPONENTS := {32, 26, 23, 22, 16, 12, 11, 10, 8, 7, 5, 4, 2, 1, 0}

  function Generator(): (g: bits)
    ensures |g| == 33 && g[0] && g[32]
  {
    seq(33, i => 32 - i in EXPONENTS)
  }

  /** Multiply the register by x modulo the generator. */
  function Shift1(r: bits): (s: bits)
    requires |r| == 32
    ensures |s| == 32
  {
    Xor(r[1..] + [false], if r[0] then Generator()[1..] else Zeros(32))
  }

  function FeedBit(r: bits, b: bool): (s: bits)
    requires |r| == 32
    ensures |s| == 32
  {
    Shift1(Xor(r, [b] + Zeros(31)))
  }

  /** The register after a string of message bits has been shifted in. */
  function Feed(r: bits, m: bits): (s: bits)
    requires |r| == 32
    ensures |s| == 32
    decreases |m|
  {
    if m == [] then r else FeedBit(Feed(r, m[..|m| - 1]), m[|m| - 1])
  }

  lemma {:induction false} FeedConcat(r: bits, a: bits, b: bits)
    requires |r| == 32
    ensures Feed(r, a + b) == Feed(Feed(r, a), b)
    decreases |b|
  {
    if b == [] {
      assert a + b == a;
    } else {
      FeedConcat(r, a, b[..|b| - 1]);
      assert (a + b)[..|a + b| - 1] == a + b[..|b| - 1];
    }
  }

  // ---------- The register holds the remainder ----------

  /** The quotient bits produced while m is shifted in. */
  function Quotient(r: bits, m: bits): (q: bits)
    requires |r| == 32
    ensures |q| == |m|
    decreases |m|
  {
    if m == [] then []
    else
      var k := |m| - 1;
      Quotient(r, m[..k]) + [Feed(r, m[..k])[0] != m[k]]
  }

  /** The message times x^32, with the register r added to its leading 32 terms. */
  function Preloaded(r: bits, m: bits): (p: bits)
    requires |r| == 32
    ensures |p| == |m| + 32
  {
    Xor(m + Zeros(32), r + Zeros(|m|))
  }

  lemma {:induction false} FeedIsDivision(r: bits, m: bits)
    requires |r| == 32
    ensures Division(Preloaded(r, m), Generator(), Quotient(r, m), Feed(r, m))
    decreases |m|
  {
    if m == [] {
      assert Xor(Mul([], Generator()), Zeros(0) + r) == r;
      assert Preloaded(r, m) == r;
    } else {
      var k := |m| - 1;
      FeedIsDivision(r, m[..k]);
      ExtendDivision(Preloaded(r, m[..k]), Quotient(r, m[..k]), Feed(r, m[..k]), m[k]);
      PreloadedStep(r, m);
    }
  }

  lemma PreloadedStep(r: bits, m: bits)
    requires |r| == 32 && m != []
    ensures var k := |m| - 1;
      Preloaded(r, m) == Xor(Preloaded(r, m[..k]) + [false], Zeros(k) + ([m[k]] + Zeros(32)))
  {
  }

  lemma ExtendDivision(p: bits, q: bits, f: bits, b: bool)
    requires Division(p, Generator(), q, f)
    ensures Division(Xor(p + [false], Zeros(|q|) + ([b] + Zeros(32))), Generator(), q + [f[0] != b], FeedBit(f, b))
  {
    var g := Generator();
    var h := if f[0] != b then g else Zeros(33);
    MulAppend(q, f[0] != b, g);
    FeedBitDivides(f, b);
    Recombine(Mul(q, g), f, FeedBit(f, b), b, h, |q|);
  }

  /** One bit: x times the old register plus b x^32 is a multiple of the generator plus the new register. */
  lemma FeedBitDivides(f: bits, b: bool)
    requires |f| == 32
    ensures Xor(f + [false], [b] + Zeros(32))
         == Xor(if f[0] != b then Generator() else Zeros(33), [false] + FeedBit(f, b))
  {
  }

  lemma Recombine(p: bits, f: bits, f': bits, b: bool, h: bits, n: nat)
    requires |p| == n + 32 && |f| == 32 == |f'| && |h| == 33
    requires Xor(f + [false], [b] + Zeros(32)) == Xor(h, [false] + f')
    ensures Xor(Xor(p, Zeros(n) + f) + [false], Zeros(n) + ([b] + Zeros(32)))
         == Xor(Xor(p + [false], Zeros(n) + h), Zeros(n + 1) + f')
  {
    var l, u := Xor(f + [false], [b] + Zeros(32)), Xor(h, [false] + f');
    forall i | n <= i < n + 33
      ensures Xor(Xor(p, Zeros(n) + f) + [false], Zeros(n) + ([b] + Zeros(32)))[i]
           == Xor(Xor(p + [false], Zeros(n) + h), Zeros(n + 1) + f')[i]
    {
      assert l[i - n] == u[i - n];
    }
  }

  // ---------- Linearity ----------

  lemma XorZeros(a: bits, b: bits)
    requires |a| == |b|
    ensures Xor(a, b) == Zeros(|a|) <==> a == b
  {
    if Xor(a, b) == Zeros(|a|) {
      forall i | 0 <= i < |a| ensures a[i] == b[i] {
        assert !Xor(a, b)[i];
      }
    }
  }

  lemma Shift1Linear(a: bits, b: bits)
    requires |a| == 32 == |b|
    ensures Shift1(Xor(a, b)) == Xor(Shift1(a), Shift1(b))
  {
  }

  lemma FeedBitLinear(f: bits, g: bits, x: bool, y: bool)
    requires |f| == 32 == |g|
    ensures FeedBit(Xor(f, g), x != y) == Xor(FeedBit(f, x), FeedBit(g, y))
  {
    var u, v := Xor(f, [x] + Zeros(31)), Xor(g, [y] + Zeros(31));
    assert Xor(Xor(f, g), [x != y] + Zeros(31)) == Xor(u, v);
    Shift1Linear(u, v);
  }

  lemma {:induction false} FeedLinear(r: bits, s: bits, a: bits, b: bits)
    requires |r| == 32 == |s| && |a| == |b|
    ensures Feed(Xor(r, s), Xor(a, b)) == Xor(Feed(r, a), Feed(s, b))
    decreases |a|
  {
    if a != [] {
      var k := |a| - 1;
      FeedLinear(r, s, a[..k], b[..k]);
      assert Xor(a, b)[..k] == Xor(a[..k], b[..k]);
      FeedBitLinear(Feed(r, a[..k]), Feed(s, b[..k]), a[k], b[k]);
    }
  }

  lemma FeedBitSelf(s: bits)
    requires |s| == 32
    ensures FeedBit(s, s[0]) == s[1..] + [false]
  {
    assert Xor(s, [s[0]] + Zeros(31)) == [false] + s[1..];
  }

  /** Feeding the register its own leading bits only moves the others up. */
  lemma {:induction false} FeedSelf(r: bits, n: nat)
    requires |r| == 32 && n <= 32
    ensures Feed(r, r[..n]) == r[n..] + Zeros(n)
  {
    if n > 0 {
      FeedSelf(r, n - 1);
      assert r[..n][..n - 1] == r[..n - 1];
      FeedBitSelf(r[n - 1..] + Zeros(n - 1));
    }
  }

  lemma FeedBitFalse(r: bits)
    requires |r| == 32
    ensures FeedBit(r, false) == Shift1(r)
  {
    assert Xor(r, [false] + Zeros(31)) == r;
  }

  /** Up to 32 message bits may be added to the register at once, then shifted through. */
  lemma FeedAtOnce(r: bits, w: bits)
    requires |r| == 32 && |w| <= 32
    ensures Feed(Xor(r, w + Zeros(32 - |w|)), Zeros(|w|)) == Feed(r, w)
  {
    var v := w + Zeros(32 - |w|);
    FeedLinear(r, v, w, w);
    XorZeros(w, w);
    FeedSelf(v, |w|);
    assert v[..|w|] == w;
    assert v[|w|..] + Zeros(|w|) == Zeros(32);
    assert Xor(Feed(r, w), Zeros(32)) == Feed(r, w);
  }

  lemma HighAndLow(r: bits, n: nat)
    requires |r| == 32 && n <= 32
    ensures r == Xor(r[..n] + Zeros(32 - n), Zeros(n) + r[n..])
    ensures (Zeros(n) + r[n..])[..n] == Zeros(n) && (Zeros(n) + r[n..])[n..] == r[n..]
  {
  }

  /** The leading n places may be shifted through on their own; the others only move up. */
  lemma FeedHigh(r: bits, n: nat)
    requires |r| == 32 && n <= 32
    ensures Feed(r, Zeros(n)) == Xor(Feed(r[..n] + Zeros(32 - n), Zeros(n)), r[n..] + Zeros(n))
  {
    var l, h := r[..n] + Zeros(32 - n), Zeros(n) + r[n..];
    FeedSelf(h, n);
    HighAndLow(r, n);
    XorZeros(Zeros(n), Zeros(n));
    FeedLinear(l, h, Zeros(n), Zeros(n));
  }

  // ---------- Bursts ----------

  lemma Shift1Zero(r: bits, j: nat)
    requires |r| == 32 && j < 32
    requires forall i | j <= i < 32 :: !Shift1(r)[i]
    ensures !r[0] && forall i | j < i < 32 :: !r[i]
  {
    assert !Shift1(r)[31];
    forall i | j < i < 32 ensures !r[i] {
      assert !Shift1(r)[i - 1];
    }
  }

  /** At most 32 bits that leave the register empty past its first j places are all zero. */
  lemma {:induction false} ShortFeedZero(m: bits, j: nat)
    requires j + |m| <= 32
    requires forall i | j <= i < 32 :: !Feed(Zeros(32), m)[i]
    ensures m == Zeros(|m|)
    decreases |m|
  {
    if m != [] {
      var k := |m| - 1;
      var f := Feed(Zeros(32), m[..k]);
      var s := Xor(f, [m[k]] + Zeros(31));
      assert Shift1(s) == Feed(Zeros(32), m);
      Shift1Zero(s, j);
      forall i | j + 1 <= i < 32 ensures !f[i] {
        assert s[i] == f[i];
      }
      ShortFeedZero(m[..k], j + 1);
      FeedZeros(k);
      assert f == Zeros(32);
    }
  }

  lemma {:induction false} FeedZeros(n: nat)
    ensures Feed(Zeros(32), Zeros(n)) == Zeros(32)
  {
    if n > 0 {
      FeedZeros(n - 1);
      assert Zeros(n)[..n - 1] == Zeros(n - 1);
      assert Xor(Zeros(32), [false] + Zeros(31)) == Zeros(32);
    }
  }

  lemma Shift1Nonzero(f: bits)
    requires |f| == 32 && f != Zeros(32)
    ensures Shift1(f) != Zeros(32)
  {
    if forall i | 0 <= i < 32 :: !Shift1(f)[i] { Shift1Zero(f, 0); }
  }

  lemma {:induction false} ZerosKeepNonzero(r: bits, n: nat)
    requires |r| == 32 && r != Zeros(32)
    ensures Feed(r, Zeros(n)) != Zeros(32)
  {
    if n > 0 {
      ZerosKeepNonzero(r, n - 1);
      assert Zeros(n)[..n - 1] == Zeros(n - 1);
      var f := Feed(r, Zeros(n - 1));
      assert Xor(f, [false] + Zeros(31)) == f;
      Shift1Nonzero(f);
    }
  }

  /** A nonzero string of at most 32 bits, with zeros around it, leaves a nonzero register. */
  lemma BurstNonzero(p: nat, w: bits, q: nat)
    requires |w| <= 32 && w != Zeros(|w|)
    ensures Feed(Zeros(32), Zeros(p) + w + Zeros(q)) != Zeros(32)
  {
    FeedConcat(Zeros(32), Zeros(p) + w, Zeros(q));
    FeedConcat(Zeros(32), Zeros(p), w);
    FeedZeros(p);
    if Feed(Zeros(32), w) == Zeros(32) { ShortFeedZero(w, 0); }
    ZerosKeepNonzero(Feed(Zeros(32), w), q);
  }

  lemma WindowOf(e: bits, p: nat) returns (w: bits, q: nat)
    requires e != Zeros(|e|)
    requires forall i | 0 <= i < |e| && !(p <= i < p + 32) :: !e[i]
    ensures |w| <= 32 && w != Zeros(|w|)
    ensures e == Zeros(p) + w + Zeros(q)
  {
    assert p < |e|;
    var h := if p + 32 <= |e| then p + 32 else |e|;
    w, q := e[p..h], |e| - h;
    assert exists i :: 0 <= i < |e| && e[i];
    var i :| 0 <= i < |e| && e[i];
    assert w[i - p];
  }

  /** Two strings of bits that differ, and only in 32 consecutive places, leave different registers. */
  lemma BurstChangesRegister(r: bits, a: bits, b: bits, p: nat)
    requires |r| == 32 && |a| == |b| && a != b
    requires forall i | 0 <= i < |a| && !(p <= i < p + 32) :: a[i] == b[i]
    ensures Feed(r, a) != Feed(r, b)
  {
    XorZeros(a, b);
    XorZeros(Feed(r, a), Feed(r, b));
    XorZeros(r, r);
    FeedLinear(r, r, a, b);
    var w, q := WindowOf(Xor(a, b), p);
    BurstNonzero(p, w, q);
  }
}
