/** What is asked for a segment of an ELF file, address by address, and what it costs on the line (client/elf.c). */
module ElfRequests {
  import opened Bytes
  import opened Memory
  import opened Protocol
  import opened ElfLoad
  import opened ElfMemory

  // ---------- The addresses ----------

  /** The request is for data at the address x, among others. */
  ghost predicate Asks(r: Request, x: int) {
    match r
    case Load(a, d) => (x - a) % SPACE < |d|
    case Zero(a, n, _) => (x - a) % SPACE < n
    case _ => false
  }

  lemma OffsetFlat(x: int, a: int, n: nat)
    requires 0 <= x < SPACE && 0 <= a && a + n <= SPACE
    ensures (x - a) % SPACE < n <==> a <= x < a + n
  {
    if a <= x {
      assert (x - a) % SPACE == x - a;
    } else {
      assert (x - a) % SPACE == x - a + SPACE;
    }
  }

  /** What a loadable segment asks for: its bytes in the file, and a fill behind them if memory is larger. */
  lemma SegmentParts(data: seq<byte>, ph: Phdr, d: seq<byte>, beef: bool)
    requires LoadableSegment(data, ph) && |d| == ph.filesz && ph.pType == PT_LOAD
    ensures SegmentRequests(ph, d, beef)
         == [Load(ph.paddr, d)] + if ph.memsz > ph.filesz then
                                    [Zero(Moved(ph.paddr, ph.filesz), ph.memsz - ph.filesz, beef)]
                                  else []
  {
    assert ZeroSize(ph) == ph.memsz - ph.filesz;
  }

  lemma FillAsks(ph: Phdr, beef: bool, x: int)
    requires ph.filesz < ph.memsz && ph.paddr + ph.memsz <= SPACE && 0 <= x < SPACE
    ensures Asks(Zero(Moved(ph.paddr, ph.filesz), ph.memsz - ph.filesz, beef), x)
       <==> ph.paddr + ph.filesz <= x < ph.paddr + ph.memsz
  {
    OffsetFlat(x, ph.paddr + ph.filesz, ph.memsz - ph.filesz);
  }

  /** The file bytes come first. */
  function AskedBy(ph: Phdr, x: int): nat {
    if x < ph.paddr + ph.filesz then 0 else 1
  }

  lemma AskedOnce(data: seq<byte>, ph: Phdr, d: seq<byte>, beef: bool, x: int, j: int)
    requires LoadableSegment(data, ph) && |d| == ph.filesz && ph.pType == PT_LOAD && 0 <= x < SPACE
    requires 0 <= j < |SegmentRequests(ph, d, beef)|
    ensures Asks(SegmentRequests(ph, d, beef)[j], x) <==> ph.paddr <= x < ph.paddr + ph.memsz && j == AskedBy(ph, x)
  {
    SegmentParts(data, ph, d, beef);
    if j == 0 { OffsetFlat(x, ph.paddr, ph.filesz); } else { FillAsks(ph, beef, x); }
  }

  /**
   The first request of a segment asks for its file bytes and the second, if there is one, for the fill. So every
   address x of the segment is asked for exactly once, no other is asked for, and no fill is empty. Entries of another
   type ask for nothing.
   */
  lemma SegmentAsked(data: seq<byte>, ph: Phdr, d: seq<byte>, beef: bool, x: int)
    requires LoadableSegment(data, ph) && |d| == ph.filesz && 0 <= x < 0x1_0000_0000
    ensures ph.pType != 1 ==> SegmentRequests(ph, d, beef) == []
    ensures ph.pType == 1 ==>
      var s := SegmentRequests(ph, d, beef);
      |s| > 0 && s[0].Load? && (forall j | 1 <= j < |s| :: s[j].Zero? && s[j].size > 0) &&
      (ph.paddr <= x < ph.paddr + ph.memsz ==> AskedBy(ph, x) < |s|) &&
      forall j | 0 <= j < |s| :: Asks(s[j], x) <==> ph.paddr <= x < ph.paddr + ph.memsz && j == AskedBy(ph, x)
  {
    if ph.pType == PT_LOAD {
      SegmentParts(data, ph, d, beef);
      var s := SegmentRequests(ph, d, beef);
      forall j | 0 <= j < |s|
        ensures Asks(s[j], x) <==> ph.paddr <= x < ph.paddr + ph.memsz && j == AskedBy(ph, x)
      {
        AskedOnce(data, ph, d, beef, x, j);
      }
    }
  }

  /** A segment smaller in memory than in the file, which no linker makes: the size of the fill wraps around. */
  lemma WrappedFill(ph: Phdr, d: seq<byte>, beef: bool)
    requires ph.pType == 1 && ph.memsz < ph.filesz
    ensures SegmentRequests(ph, d, beef) ==
      [Load(ph.paddr, d),
       Zero((ph.paddr + ph.filesz) % 0x1_0000_0000, 0x1_0000_0000 - (ph.filesz - ph.memsz), beef)]
  {
  }

  // ---------- The bytes on the line ----------

  /** One header and the file bytes, and one more header for a fill. */
  function SegmentLine(ph: Phdr): nat {
    if ph.pType == 1 then 20 + ph.filesz + (if ph.memsz > ph.filesz then 20 else 0) else 0
  }

  /** The same for the first k entries together. */
  function ElfLine(phdrs: seq<Phdr>, k: nat): nat
    requires k <= |phdrs|
  {
    if k == 0 then 0 else ElfLine(phdrs, k - 1) + SegmentLine(phdrs[k - 1])
  }

  lemma {:induction false} LineConcat(s: seq<Request>, t: seq<Request>)
    ensures LineBytes(s + t) == LineBytes(s) + LineBytes(t)
    decreases |t|
  {
    if t == [] {
      assert s + t == s;
    } else {
      var k := |t| - 1;
      assert (s + t)[..|s| + k] == s + t[..k];
      LineConcat(s, t[..k]);
    }
  }

  lemma LineOne(r: Request)
    ensures LineBytes([r]) == HEADER_SIZE + |PayloadOf(r)|
  {
    assert [r][..0] == [];
  }

  lemma SegmentCost(data: seq<byte>, ph: Phdr, d: seq<byte>, beef: bool)
    requires LoadableSegment(data, ph) && |d| == ph.filesz
    ensures AllSendable(SegmentRequests(ph, d, beef)) && LineBytes(SegmentRequests(ph, d, beef)) == SegmentLine(ph)
  {
    if ph.pType == PT_LOAD {
      SegmentParts(data, ph, d, beef);
      var load, zero := Load(ph.paddr, d), Zero(Moved(ph.paddr, ph.filesz), ZeroSize(ph), beef);
      LineOne(load);
      LineOne(zero);
      LineConcat([load], if ph.memsz > ph.filesz then [zero] else []);
    }
  }

  lemma SendableConcat(s: seq<Request>, t: seq<Request>)
    requires AllSendable(s) && AllSendable(t)
    ensures AllSendable(s + t)
  {
  }

  lemma {:induction false} ElfLineBytes(f: ElfFile, contents: seq<seq<byte>>, k: nat, beef: bool)
      returns (s: seq<Request>)
    requires Loadable(f) && Contents(f, contents) && k <= |contents|
    ensures s == ElfScript(f.phdrs, contents, k, beef) && AllSendable(s) && LineBytes(s) == ElfLine(f.phdrs, k)
  {
    if k == 0 { return []; }
    var s0 := ElfLineBytes(f, contents, k - 1, beef);
    var t := SegmentRequests(f.phdrs[k - 1], contents[k - 1], beef);
    SegmentCost(f.data, f.phdrs[k - 1], contents[k - 1], beef);
    SendableConcat(s0, t);
    LineConcat(s0, t);
    s := s0 + t;
  }

  /** What the upload of an ELF file writes, in bytes: it depends on the program headers only. */
  lemma ElfCost(f: ElfFile, contents: seq<seq<byte>>, beef: bool)
    requires Loadable(f) && Contents(f, contents) && |contents| == |f.phdrs|
    ensures AllSendable(ElfScript(f.phdrs, contents, |f.phdrs|, beef))
    ensures |Frames(ElfScript(f.phdrs, contents, |f.phdrs|, beef))| == ElfLine(f.phdrs, |f.phdrs|)
  {
    var s := ElfLineBytes(f, contents, |f.phdrs|, beef);
    FramesLength(s);
  }
}
