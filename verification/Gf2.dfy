/** Polynomials over GF(2), written as their coefficients from the highest-order term down. */
module Gf2 {

  type bits = seq<bool>

  function Zeros(n: nat): (z: bits)
    ensures |z| == n && forall i | 0 <= i < n :: !z[i]
  {
    seq(n, _ => false)
  }

  function Ones(n: nat): (z: bits)
    ensures |z| == n && forall i | 0 <= i < n :: z[i]
  {
    seq(n, _ => true)
  }

  /** Addition of polynomials of the same length. */
  function Xor(a: bits, b: bits): (c: bits)
    requires |a| == |b|
    ensures |c| == |a| && forall i {:trigger c[i]} | 0 <= i < |a| :: c[i] == (a[i] != b[i])
  {
    seq(|a|, i requires 0 <= i < |a| => a[i] != b[i])
  }

  /** Schoolbook multiplication: one shifted copy of q for each term of p. */
  function Mul(p: bits, q: bits): (r: bits)
    requires |q| > 0
    ensures |r| == |p| + |q| - 1
  {
    if p == [] then Zeros(|q| - 1)
    else Xor((if p[0] then q else Zeros(|q|)) + Zeros(|p| - 1), [false] + Mul(p[1..], q))
  }

  /** One copy of q for the highest-order term x, and the product of the rest. */
  lemma MulFirst(x: bool, p: bits, q: bits, s: bits, t: bits, n: nat)
    requires |q| > 0 && s == [x] + p && n == |p| && t == if x then q else Zeros(|q|)
    ensures Mul(s, q) == Xor(t + Zeros(n), [false] + Mul(p, q))
  {
    assert s[0] == x && s[1..] == p;
  }

  /** Appending a low-order term to p: multiply by x, then add one copy of q. */
  lemma {:induction false} MulAppend(p: bits, b: bool, q: bits)
    requires |q| > 0
    ensures Mul(p + [b], q) == Xor(Mul(p, q) + [false], Zeros(|p|) + if b then q else Zeros(|q|))
  {
    if p == [] {
      assert ([b])[1..] == [];
    } else {
      var s := p[1..];
      MulAppend(s, b, q);
      AppendToFirst(p[0], s, p, b, q, |s|, if p[0] then q else Zeros(|q|), if b then q else Zeros(|q|));
    }
  }

  lemma AppendToFirst(x: bool, s: bits, p: bits, b: bool, q: bits, n: nat, t: bits, u: bits)
    requires p == [x] + s && n == |s| && |q| == |u| > 0 && t == if x then q else Zeros(|q|)
    requires Mul(s + [b], q) == Xor(Mul(s, q) + [false], Zeros(n) + u)
    ensures Mul(p + [b], q) == Xor(Mul(p, q) + [false], Zeros(n + 1) + u)
  {
    assert p + [b] == [x] + (s + [b]);
    MulFirst(x, s, q, p, t, n);
    MulFirst(x, s + [b], q, p + [b], t, n + 1);
    AppendXor(t, Mul(s, q), u, n);
  }

  lemma AppendXor(t: bits, m: bits, u: bits, n: nat)
    requires |t| == |u| > 0 && |m| == |t| + n - 1
    ensures Xor(t + Zeros(n + 1), [false] + Xor(m + [false], Zeros(n) + u))
         == Xor(Xor(t + Zeros(n), [false] + m) + [false], Zeros(n + 1) + u)
  {
  }

  /** The leading coefficient of a product with a monic polynomial, and the rest of it. */
  lemma MulLead(p: bits, q: bits)
    requires p != [] && q != [] && q[0]
    ensures Mul(p, q)[0] == p[0]
    ensures Mul(p, q)[1..] == Xor((if p[0] then q[1..] else Zeros(|q| - 1)) + Zeros(|p| - 1), Mul(p[1..], q))
  {
  }

  /** q is the quotient and r the remainder of the division of m by the monic g. */
  ghost predicate Division(m: bits, g: bits, q: bits, r: bits) {
    g != [] && g[0] && |m| == |q| + |g| - 1 && |r| == |g| - 1 &&
    m == Xor(Mul(q, g), Zeros(|q|) + r)
  }

  /** Quotient and remainder are unique. */
  lemma {:induction false} DivisionUnique(m: bits, g: bits, q: bits, r: bits, q': bits, r': bits)
    requires Division(m, g, q, r) && Division(m, g, q', r')
    ensures q == q' && r == r'
    decreases |q|
  {
    if q == [] {
      assert Xor(Mul(q, g), Zeros(|q|) + r) == r && Xor(Mul(q', g), Zeros(|q'|) + r') == r';
    } else {
      MulLead(q, g);
      MulLead(q', g);
      assert q[0] == m[0] == q'[0];
      var f := (if q[0] then g[1..] else Zeros(|g| - 1)) + Zeros(|q| - 1);
      PeelLead(m, g, q, r, f);
      PeelLead(m, g, q', r', f);
      DivisionUnique(Xor(m[1..], f), g, q[1..], r, q'[1..], r');
    }
  }

  lemma PeelLead(m: bits, g: bits, q: bits, r: bits, f: bits)
    requires q != [] && Division(m, g, q, r)
    requires f == (if q[0] then g[1..] else Zeros(|g| - 1)) + Zeros(|q| - 1)
    ensures Division(Xor(m[1..], f), g, q[1..], r)
  {
    MulLead(q, g);
    var a, b := Mul(q, g), Zeros(|q|) + r;
    assert m[1..] == Xor(a[1..], b[1..]);
    assert b[1..] == Zeros(|q| - 1) + r;
    assert Xor(m[1..], f) == Xor(Mul(q[1..], g), b[1..]);
  }
}
