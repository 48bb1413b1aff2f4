/** Byte-addressed memory, as the Pi's byte and word loops see it. */
module Memory {
  import opened Bytes

  /** The 32-bit address space; addresses wrap around at its end. */
  type Memory = m: seq<byte> | |m| == SPACE ghost witness seq(SPACE, _ => 0)

  /** The address n further on. */
  function Moved(a: int, n: int): u32 {
    (a + n) % SPACE
  }

  /** d stored at consecutive addresses from a on. */
  function Write(m: Memory, a: int, d: seq<byte>): (w: Memory)
  {
    seq(SPACE, x requires 0 <= x < SPACE => var o := (x - a) % SPACE; if o < |d| then d[o] else m[x])
  }

  /** The n bytes from a on. */
  function Read(m: Memory, a: int, n: nat): (d: seq<byte>)
    ensures |d| == n
  {
    seq(n, i requires 0 <= i < n => m[Moved(a, i)])
  }

  /** n bytes of the repeated little-endian value. */
  function Fill(value: bv32, n: nat): (d: seq<byte>)
    ensures |d| == n
  {
    seq(n, i requires 0 <= i < n => LE32(value)[i % 4])
  }

  lemma OffsetUnique(x: int, a: int, k: int)
    requires 0 <= x < SPACE && 0 <= k < SPACE
    ensures (x - a) % SPACE == k <==> x == Moved(a, k)
  {
  }

  /** One more byte stored. */
  lemma WriteByte(m: Memory, a: int, d: seq<byte>, b: byte)
    requires |d| < SPACE
    ensures Write(m, a, d + [b]) == Write(m, a, d)[Moved(a, |d|) := b]
  {
    forall x | 0 <= x < SPACE
      ensures Write(m, a, d + [b])[x] == Write(m, a, d)[Moved(a, |d|) := b][x]
    {
      OffsetUnique(x, a, |d|);
    }
  }

  lemma WriteNothing(m: Memory, a: int)
    ensures Write(m, a, []) == m
  {
  }

  lemma WriteWrapped(m: Memory, a: int, d: seq<byte>)
    ensures Write(m, a % SPACE, d) == Write(m, a, d)
  {
    forall x | 0 <= x < SPACE ensures Write(m, a % SPACE, d)[x] == Write(m, a, d)[x] {
      OffsetWrapped(x, a);
    }
  }

  lemma OffsetWrapped(x: int, a: int)
    ensures (x - a % SPACE) % SPACE == (x - a) % SPACE
  {
    OffsetWhole(x - a, a / SPACE);
  }

  lemma OffsetWhole(y: int, q: int)
    ensures (y + SPACE * q) % SPACE == y % SPACE
  {
  }

  lemma MovedTwice(a: int, n: int, k: int)
    ensures Moved(Moved(a, n), k) == Moved(a, n + k)
  {
    var q := (a + n) / SPACE;
    assert a + (n + k) == Moved(a, n) + k + SPACE * q;
    OffsetWhole(Moved(a, n) + k, q);
  }

  /** Storing two pieces back to back is storing them at once. */
  lemma {:induction false} WriteConcat(m: Memory, a: int, d: seq<byte>, e: seq<byte>)
    requires |d| + |e| <= SPACE
    ensures Write(Write(m, a, d), a + |d|, e) == Write(m, a, d + e)
    decreases |e|
  {
    if e == [] {
      WriteNothing(Write(m, a, d), a + |d|);
      assert d + e == d;
    } else {
      var k := |e| - 1;
      WriteConcat(m, a, d, e[..k]);
      WriteByte(Write(m, a, d), a + |d|, e[..k], e[k]);
      WriteByte(m, a, d + e[..k], e[k]);
      assert e == e[..k] + [e[k]];
      assert d + e == d + e[..k] + [e[k]];
    }
  }

  /** What was stored can be read back. */
  lemma ReadWritten(m: Memory, a: int, d: seq<byte>)
    requires |d| <= SPACE
    ensures Read(Write(m, a, d), a, |d|) == d
  {
    forall i | 0 <= i < |d| ensures Read(Write(m, a, d), a, |d|)[i] == d[i] {
      OffsetUnique(Moved(a, i), a, i);
    }
  }

  /** Which bytes are stored, and which are left. */
  lemma WriteAt(m: Memory, a: int, d: seq<byte>, x: int)
    requires 0 <= x < SPACE
    ensures Write(m, a, d)[x] == var o := (x - a) % SPACE; if o < |d| then d[o] else m[x]
  {
  }

  lemma WriteAtFlat(m: Memory, a: nat, d: seq<byte>, x: nat)
    requires a + |d| <= SPACE && x < SPACE
    ensures Write(m, a, d)[x] == if a <= x < a + |d| then d[x - a] else m[x]
  {
  }
}
