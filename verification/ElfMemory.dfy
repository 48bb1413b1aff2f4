/** What an ELF upload leaves in memory, byte by byte (System V ABI, chapter 5, "Program Header"). */
module ElfMemory {
  import opened Bytes
  import opened Memory
  import opened Protocol
  import opened ElfLoad

  /** Segments as the format asks for them: within the file, at least as large in memory, and not wrapping. */
  predicate Loadable(f: ElfFile) {
    forall j | 0 <= j < |f.phdrs| :: LoadableSegment(f.data, f.phdrs[j])
  }

  predicate LoadableSegment(data: seq<byte>, ph: Phdr) {
    ph.pType == PT_LOAD ==>
      ph.filesz <= ph.memsz && ph.offset + ph.filesz <= |data| &&
      ph.paddr + ph.memsz <= SPACE && ph.filesz < 0x8000_0000
  }

  predicate InSegment(ph: Phdr, x: int) {
    ph.pType == PT_LOAD && ph.paddr <= x < ph.paddr + ph.memsz
  }

  /** The byte that a segment asks for at address x: one of the file, or one of the fill. */
  function SegmentByteAt(data: seq<byte>, ph: Phdr, beef: bool, x: int): byte
    requires LoadableSegment(data, ph) && InSegment(ph, x)
  {
    var o := x - ph.paddr;
    if o < ph.filesz then data[ph.offset + o] else LE32(FillPattern(beef))[(o - ph.filesz) % 4]
  }

  /** The last of the first k program headers that covers x, or -1. */
  function LastCover(phdrs: seq<Phdr>, k: nat, x: int): (j: int)
    requires k <= |phdrs|
    ensures -1 <= j < k && (j >= 0 ==> InSegment(phdrs[j], x)) && forall i | j < i < k :: !InSegment(phdrs[i], x)
  {
    if k == 0 then -1 else if InSegment(phdrs[k - 1], x) then k - 1 else LastCover(phdrs, k - 1, x)
  }

  // ---------- One segment ----------

  lemma SegmentEffect(ph: Phdr, d: seq<byte>, beef: bool, mem: Memory, s: seq<Request>, z: seq<byte>)
    requires ph.pType == PT_LOAD && ph.filesz <= ph.memsz && |d| == ph.filesz
    requires s == SegmentRequests(ph, d, beef) && z == Fill(FillPattern(beef), ph.memsz - ph.filesz)
    ensures EffectAll(s, mem) == Write(mem, ph.paddr, d + z)
  {
    if ph.memsz == ph.filesz {
      assert d + z == d && s == [Load(ph.paddr, d)];
      EffectOne(Load(ph.paddr, d), mem);
    } else {
      var zero := Zero(Moved(ph.paddr, ph.filesz), ph.memsz - ph.filesz, beef);
      SegmentZero(ph, d, beef, zero);
      ZeroEffect(Write(mem, ph.paddr, d), zero, z);
      EffectTwo(Load(ph.paddr, d), zero, mem);
      WriteTwo(mem, ph.paddr, ph.filesz, d, z);
    }
  }

  lemma SegmentZero(ph: Phdr, d: seq<byte>, beef: bool, zero: Request)
    requires ph.pType == PT_LOAD && ph.filesz < ph.memsz
    requires zero == Zero(Moved(ph.paddr, ph.filesz), ph.memsz - ph.filesz, beef)
    ensures SegmentRequests(ph, d, beef) == [Load(ph.paddr, d), zero]
  {
  }

  lemma ZeroEffect(mem: Memory, r: Request, z: seq<byte>)
    requires r.Zero? && z == Fill(FillPattern(r.beef), r.size)
    ensures Effect(r, mem) == Write(mem, r.address, z)
  {
  }

  lemma WriteTwo(mem: Memory, a: u32, n: u32, d: seq<byte>, z: seq<byte>)
    requires |d| == n && n + |z| <= SPACE
    ensures Write(Write(mem, a, d), Moved(a, n), z) == Write(mem, a, d + z)
  {
    WriteWrapped(Write(mem, a, d), a + n, z);
    WriteConcat(mem, a, d, z);
  }

  lemma SegmentByte(data: seq<byte>, ph: Phdr, d: seq<byte>, beef: bool, mem: Memory, x: int)
    requires LoadableSegment(data, ph) && ReadFrom(data, ph, d) && 0 <= x < SPACE
    ensures EffectAll(SegmentRequests(ph, d, beef), mem)[x]
         == if InSegment(ph, x) then SegmentByteAt(data, ph, beef, x) else mem[x]
  {
    if ph.pType == PT_LOAD {
      var z := Fill(FillPattern(beef), ph.memsz - ph.filesz);
      SegmentEffect(ph, d, beef, mem, SegmentRequests(ph, d, beef), z);
      WriteAtFlat(mem, ph.paddr, d + z, x);
    }
  }

  // ---------- All segments ----------

  /** What the last segment that covers x asks for there, or what was there if none does. */
  function LoadedByte(f: ElfFile, k: nat, beef: bool, mem: Memory, x: int): byte
    requires Loadable(f) && k <= |f.phdrs| && 0 <= x < SPACE
  {
    var j := LastCover(f.phdrs, k, x);
    if j < 0 then mem[x] else SegmentByteAt(f.data, f.phdrs[j], beef, x)
  }

  lemma LoadedNext(f: ElfFile, k: nat, beef: bool, mem: Memory, x: int)
    requires Loadable(f) && 0 < k <= |f.phdrs| && 0 <= x < SPACE
    ensures LoadedByte(f, k, beef, mem, x)
         == if InSegment(f.phdrs[k - 1], x) then SegmentByteAt(f.data, f.phdrs[k - 1], beef, x)
            else LoadedByte(f, k - 1, beef, mem, x)
  {
  }

  /** Each byte is what the last segment that covers it asks for; a byte that none covers is as it was. */
  lemma {:induction false} LastSegmentWins(f: ElfFile, contents: seq<seq<byte>>, k: nat, beef: bool, mem: Memory,
                                           x: int)
    requires Loadable(f) && Contents(f, contents) && k <= |contents| && 0 <= x < SPACE
    ensures EffectAll(ElfScript(f.phdrs, contents, k, beef), mem)[x] == LoadedByte(f, k, beef, mem, x)
  {
    if k > 0 {
      LastSegmentWins(f, contents, k - 1, beef, mem, x);
      LoadedNext(f, k, beef, mem, x);
      var s := ElfScript(f.phdrs, contents, k - 1, beef);
      OneMoreSegment(f.data, f.phdrs[k - 1], contents[k - 1], beef, s, mem, x);
    }
  }

  lemma OneMoreSegment(data: seq<byte>, ph: Phdr, d: seq<byte>, beef: bool, s: seq<Request>, mem: Memory, x: int)
    requires LoadableSegment(data, ph) && ReadFrom(data, ph, d) && 0 <= x < SPACE
    ensures EffectAll(s + SegmentRequests(ph, d, beef), mem)[x]
         == if InSegment(ph, x) then SegmentByteAt(data, ph, beef, x) else EffectAll(s, mem)[x]
  {
    EffectConcat(s, SegmentRequests(ph, d, beef), mem);
    SegmentByte(data, ph, d, beef, EffectAll(s, mem), x);
  }

  ghost predicate Disjoint(phdrs: seq<Phdr>) {
    forall i, j, x | 0 <= i < j < |phdrs| && InSegment(phdrs[i], x) :: !InSegment(phdrs[j], x)
  }

  /** With disjoint segments every segment is in memory as a whole, and nothing else has changed. */
  lemma DisjointSegments(f: ElfFile, contents: seq<seq<byte>>, beef: bool, mem: Memory)
    requires Loadable(f) && Contents(f, contents) && |contents| == |f.phdrs| && Disjoint(f.phdrs)
    ensures var m := EffectAll(ElfScript(f.phdrs, contents, |f.phdrs|, beef), mem);
      (forall j, x | 0 <= j < |f.phdrs| && InSegment(f.phdrs[j], x) ::
         m[x] == SegmentByteAt(f.data, f.phdrs[j], beef, x)) &&
      (forall x | 0 <= x < SPACE && LastCover(f.phdrs, |f.phdrs|, x) < 0 :: m[x] == mem[x])
  {
    var m := EffectAll(ElfScript(f.phdrs, contents, |f.phdrs|, beef), mem);
    forall j, x | 0 <= j < |f.phdrs| && InSegment(f.phdrs[j], x)
      ensures m[x] == SegmentByteAt(f.data, f.phdrs[j], beef, x)
    {
      LastSegmentWins(f, contents, |f.phdrs|, beef, mem, x);
    }
    forall x | 0 <= x < SPACE && LastCover(f.phdrs, |f.phdrs|, x) < 0 ensures m[x] == mem[x] {
      LastSegmentWins(f, contents, |f.phdrs|, beef, mem, x);
    }
  }

  /** The order of disjoint program headers does not matter. */
  lemma OrderIrrelevant(f: ElfFile, g: ElfFile, c: seq<seq<byte>>, d: seq<seq<byte>>, beef: bool, mem: Memory)
    requires Loadable(f) && Contents(f, c) && |c| == |f.phdrs| && Disjoint(f.phdrs)
    requires Contents(g, d) && |d| == |g.phdrs|
    requires g.data == f.data && multiset(g.phdrs) == multiset(f.phdrs)
    ensures EffectAll(ElfScript(g.phdrs, d, |g.phdrs|, beef), mem)
         == EffectAll(ElfScript(f.phdrs, c, |f.phdrs|, beef), mem)
  {
    SameHeaders(f, g);
    forall x | 0 <= x < SPACE
      ensures EffectAll(ElfScript(g.phdrs, d, |g.phdrs|, beef), mem)[x]
           == EffectAll(ElfScript(f.phdrs, c, |f.phdrs|, beef), mem)[x]
    {
      SameByte(f, g, c, d, beef, mem, x);
    }
  }

  lemma SameHeaders(f: ElfFile, g: ElfFile)
    requires Loadable(f) && g.data == f.data && multiset(g.phdrs) == multiset(f.phdrs)
    ensures Loadable(g) && forall ph :: ph in g.phdrs <==> ph in f.phdrs
  {
    forall ph ensures ph in g.phdrs <==> ph in f.phdrs {
      assert ph in g.phdrs <==> ph in multiset(g.phdrs);
      assert ph in f.phdrs <==> ph in multiset(f.phdrs);
    }
    forall j | 0 <= j < |g.phdrs| ensures LoadableSegment(g.data, g.phdrs[j]) {
      assert g.phdrs[j] in f.phdrs;
    }
  }

  lemma SameByte(f: ElfFile, g: ElfFile, c: seq<seq<byte>>, d: seq<seq<byte>>, beef: bool, mem: Memory, x: int)
    requires Loadable(f) && Contents(f, c) && |c| == |f.phdrs| && Disjoint(f.phdrs) && 0 <= x < SPACE
    requires Loadable(g) && Contents(g, d) && |d| == |g.phdrs|
    requires g.data == f.data && forall ph :: ph in g.phdrs <==> ph in f.phdrs
    ensures EffectAll(ElfScript(g.phdrs, d, |g.phdrs|, beef), mem)[x]
         == EffectAll(ElfScript(f.phdrs, c, |f.phdrs|, beef), mem)[x]
  {
    LastSegmentWins(f, c, |f.phdrs|, beef, mem, x);
    LastSegmentWins(g, d, |g.phdrs|, beef, mem, x);
    SameCover(f.phdrs, g.phdrs, x);
  }

  lemma SameCover(p: seq<Phdr>, q: seq<Phdr>, x: int)
    requires Disjoint(p) && forall ph :: ph in q <==> ph in p
    ensures var i, j := LastCover(p, |p|, x), LastCover(q, |q|, x); (i < 0 <==> j < 0) && (i >= 0 ==> p[i] == q[j])
  {
    var i, j := LastCover(p, |p|, x), LastCover(q, |q|, x);
    if i >= 0 {
      assert p[i] in q;
    }
    if j >= 0 {
      assert q[j] in p;
      var k :| 0 <= k < |p| && p[k] == q[j];
    }
  }
}
