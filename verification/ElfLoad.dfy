/** The upload of an ELF executable, segment by segment (client/elf.c, load_section of client/bootproto.c). */
module ElfLoad {
  import opened Bytes
  import opened Memory
  import opened Protocol
  import opened Bootproto

  const PT_LOAD := 1

  /** An entry of the program header table, as far as the loader looks at it. */
  datatype Phdr = Phdr(pType: u32, offset: u32, paddr: u32, filesz: u32, memsz: u32)

  datatype ElfFile = ElfFile(entry: u32, phdrs: seq<Phdr>, data: seq<byte>)

  /** The Pi counts the data of a LOAD in a signed integer. */
  predicate SmallSegments(phdrs: seq<Phdr>) {
    forall j | 0 <= j < |phdrs| :: phdrs[j].pType == PT_LOAD ==> phdrs[j].filesz < 0x8000_0000
  }

  /** What reading a segment gives: the bytes of the file as far as it goes, and then whatever was there. */
  predicate ReadFrom(data: seq<byte>, ph: Phdr, d: seq<byte>) {
    |d| == ph.filesz && forall i | 0 <= i < |d| && ph.offset + i < |data| :: d[i] == data[ph.offset + i]
  }

  /** Contents of the first program headers. */
  predicate Contents(f: ElfFile, contents: seq<seq<byte>>) {
    |contents| <= |f.phdrs| && forall j | 0 <= j < |contents| :: ReadFrom(f.data, f.phdrs[j], contents[j])
  }

  function ZeroSize(ph: Phdr): u32 {
    (ph.memsz - ph.filesz) % SPACE
  }

  /** The requests for one program header. */
  function SegmentRequests(ph: Phdr, d: seq<byte>, beef: bool): seq<Request> {
    if ph.pType != PT_LOAD then []
    else if ZeroSize(ph) > 0 then
      [Load(ph.paddr, d), Zero(Moved(ph.paddr, ph.filesz), ZeroSize(ph), beef)]
    else [Load(ph.paddr, d)]
  }

  /** The requests for the first k program headers. */
  function ElfScript(phdrs: seq<Phdr>, contents: seq<seq<byte>>, k: nat, beef: bool): seq<Request>
    requires k <= |phdrs| && k <= |contents|
  {
    if k == 0 then []
    else ElfScript(phdrs, contents, k - 1, beef) + SegmentRequests(phdrs[k - 1], contents[k - 1], beef)
  }

  lemma {:induction false} SameScript(phdrs: seq<Phdr>, c: seq<seq<byte>>, d: seq<seq<byte>>, k: nat, beef: bool)
    requires k <= |phdrs| && k <= |c| && k <= |d| && c[..k] == d[..k]
    ensures ElfScript(phdrs, c, k, beef) == ElfScript(phdrs, d, k, beef)
  {
    if k > 0 {
      assert c[..k - 1] == c[..k][..k - 1] && d[..k - 1] == d[..k][..k - 1];
      assert c[k - 1] == c[..k][k - 1] && d[k - 1] == d[..k][k - 1];
      SameScript(phdrs, c, d, k - 1, beef);
    }
  }

  lemma NextSegment(x: Exchanged, phdrs: seq<Phdr>, contents: seq<seq<byte>>, k: nat, beef: bool)
    requires 0 < k <= |phdrs| && k <= |contents|
    ensures Continue(x, ElfScript(phdrs, contents, k, beef))
         == Continue(Continue(x, ElfScript(phdrs, contents, k - 1, beef)),
                     SegmentRequests(phdrs[k - 1], contents[k - 1], beef))
  {
    ContinueConcat(x, ElfScript(phdrs, contents, k - 1, beef), SegmentRequests(phdrs[k - 1], contents[k - 1], beef));
  }

  lemma {:induction false} ScriptExtends(phdrs: seq<Phdr>, contents: seq<seq<byte>>, k: nat, n: nat, beef: bool)
      returns (s: seq<Request>)
    requires k <= n <= |phdrs| && n <= |contents|
    ensures ElfScript(phdrs, contents, n, beef) == ElfScript(phdrs, contents, k, beef) + s
  {
    if k == n { return []; }
    var t := ScriptExtends(phdrs, contents, k, n - 1, beef);
    s := t + SegmentRequests(phdrs[n - 1], contents[n - 1], beef);
  }

  /** Once a request has failed the rest of the script is not looked at. */
  lemma FailureLasts(x: Exchanged, phdrs: seq<Phdr>, contents: seq<seq<byte>>, k: nat, n: nat, beef: bool)
    requires k <= n <= |phdrs| && n <= |contents| && !Continue(x, ElfScript(phdrs, contents, k, beef)).ok
    ensures Continue(x, ElfScript(phdrs, contents, n, beef)) == Continue(x, ElfScript(phdrs, contents, k, beef))
  {
    var s := ScriptExtends(phdrs, contents, k, n, beef);
    ContinueConcat(x, ElfScript(phdrs, contents, k, beef), s);
  }

  // ---------- The loop ----------

  /** Reads a section into fresh memory; a file that ends too early leaves the rest of it as it was. */
  method ReadSection(data: seq<byte>, offset: u32, size: u32) returns (sdata: seq<byte>)
    ensures |sdata| == size
    ensures forall i | 0 <= i < size && offset + i < |data| :: sdata[i] == data[offset + i]
  {
    var buffer := new byte[size];
    var k := 0;
    while k < size && offset + k < |data|
      invariant 0 <= k <= size
      invariant forall i | 0 <= i < k :: offset + i < |data| && buffer[i] == data[offset + i]
    {
      buffer[k] := data[offset + k];
      k := k + 1;
    }
    sdata := buffer[..];
  }

  method LoadSection(client: Client, data: seq<byte>, address: u32, offset: u32, size: u32)
      returns (ok: bool, ghost sdata: seq<byte>)
    requires client.Valid() && size < 0x8000_0000
    modifies client`tx, client`log, client`rx
    ensures client.Valid() && |sdata| == size
    ensures forall i | 0 <= i < size && offset + i < |data| :: sdata[i] == data[offset + i]
    ensures Exchanged(client.log, ok, client.rx)
         == Before(old(client.log), Exchange(Load(address, sdata), old(client.rx)))
  {
    var d := ReadSection(data, offset, size);
    sdata := d;
    ok := client.LoadBuffer(address, d);
  }

  /** The body of the loop over the program headers. */
  method LoadSegment(client: Client, data: seq<byte>, ph: Phdr) returns (ok: bool, ghost d: seq<byte>)
    requires client.Valid() && (ph.pType == PT_LOAD ==> ph.filesz < 0x8000_0000)
    modifies client`tx, client`log, client`rx
    ensures client.Valid() && ReadFrom(data, ph, d)
    ensures Exchanged(client.log, ok, client.rx)
         == Continue(Exchanged(old(client.log), true, old(client.rx)), SegmentRequests(ph, d, client.beefBss))
  {
    ghost var x := Exchanged(client.log, true, client.rx);
    if ph.pType != PT_LOAD {
      d := SomeContent(data, ph);
      assert x.sent + [] == x.sent;
      return true, d;
    }
    ok, d := LoadSection(client, data, ph.paddr, ph.offset, ph.filesz);
    ghost var y := Exchanged(client.log, ok, client.rx);
    ContinueOne(x, Load(ph.paddr, d));
    var zSize := (ph.memsz - ph.filesz) % SPACE;
    if zSize > 0 {
      ghost var r := Zero(Moved(ph.paddr, ph.filesz), zSize, client.beefBss);
      ContinueConcat(x, [Load(ph.paddr, d)], [r]);
      assert SegmentRequests(ph, d, client.beefBss) == [Load(ph.paddr, d)] + [r];
      if ok {
        ContinueOne(y, r);
        ok := client.ZeroSection(Moved(ph.paddr, ph.filesz), zSize);
      }
    }
  }

  ghost function SomeContent(data: seq<byte>, ph: Phdr): (d: seq<byte>)
    ensures ReadFrom(data, ph, d)
  {
    seq(ph.filesz, i requires 0 <= i < ph.filesz => if ph.offset + i < |data| then data[ph.offset + i] else 0)
  }

  /** Contents for the program headers that were not reached. */
  ghost function Completed(f: ElfFile, contents: seq<seq<byte>>): (c: seq<seq<byte>>)
    requires Contents(f, contents)
    ensures Contents(f, c) && |c| == |f.phdrs| && c[..|contents|] == contents
  {
    var c := seq(|f.phdrs|,
      j requires 0 <= j < |f.phdrs| => if j < |contents| then contents[j] else SomeContent(f.data, f.phdrs[j]));
    assert c[..|contents|] == contents;
    c
  }

  lemma StoppedAt(x: Exchanged, f: ElfFile, contents: seq<seq<byte>>, beef: bool) returns (c: seq<seq<byte>>)
    requires Contents(f, contents) && !Continue(x, ElfScript(f.phdrs, contents, |contents|, beef)).ok
    ensures Contents(f, c) && |c| == |f.phdrs|
    ensures Continue(x, ElfScript(f.phdrs, c, |f.phdrs|, beef))
         == Continue(x, ElfScript(f.phdrs, contents, |contents|, beef))
  {
    c := Completed(f, contents);
    SameScript(f.phdrs, contents, c, |contents|, beef);
    FailureLasts(x, f.phdrs, c, |contents|, |f.phdrs|, beef);
  }

  lemma NextContents(x: Exchanged, y: Exchanged, f: ElfFile, contents: seq<seq<byte>>, k: nat, d: seq<byte>, beef: bool)
      returns (c: seq<seq<byte>>)
    requires Contents(f, contents) && |contents| == k < |f.phdrs| && ReadFrom(f.data, f.phdrs[k], d)
    requires y == Continue(Continue(x, ElfScript(f.phdrs, contents, k, beef)), SegmentRequests(f.phdrs[k], d, beef))
    ensures Contents(f, c) && |c| == k + 1 && y == Continue(x, ElfScript(f.phdrs, c, k + 1, beef))
  {
    c := contents + [d];
    assert c[k] == d && c[..k] == contents[..k];
    SameScript(f.phdrs, contents, c, k, beef);
    NextSegment(x, f.phdrs, c, k + 1, beef);
  }

  /** Loads every segment and reports the entry point. */
  method LoadElf(client: Client, f: ElfFile) returns (ok: bool, entry: u32, ghost contents: seq<seq<byte>>)
    requires client.Valid() && SmallSegments(f.phdrs)
    modifies client`tx, client`log, client`rx
    ensures client.Valid() && Contents(f, contents) && |contents| == |f.phdrs|
    ensures Exchanged(client.log, ok, client.rx)
         == Continue(Exchanged(old(client.log), true, old(client.rx)),
                     ElfScript(f.phdrs, contents, |f.phdrs|, client.beefBss))
    ensures ok ==> entry == f.entry
  {
    entry, contents := f.entry, [];
    ghost var x, beef := Exchanged(client.log, true, client.rx), client.beefBss;
    assert x.sent + [] == x.sent;
    for i := 0 to |f.phdrs|
      invariant |contents| == i && Contents(f, contents) && client.Valid()
      invariant Exchanged(client.log, true, client.rx) == Continue(x, ElfScript(f.phdrs, contents, i, beef))
    {
      ghost var d;
      ok, d := LoadSegment(client, f.data, f.phdrs[i]);
      contents := NextContents(x, Exchanged(client.log, ok, client.rx), f, contents, i, d, beef);
      if !ok {
        contents := StoppedAt(x, f, contents, beef);
        return;
      }
    }
    ok := true;
  }
}
