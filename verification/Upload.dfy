/**
 From the command line to the memory of the Pi: binary files lie back to back, and every interleaving of
 the session leaves them there (client/bootpc.c, client/binary_loader.c, raspi/bootrpi.c).
 */
module Upload {
  import opened Bytes
  import opened Memory
  import opened Protocol
  import opened BinarySplit
  import opened BinaryLoad
  import opened BinaryImage
  import opened Bootpc
  import opened BootArea
  import opened ElfLoad
  import opened ElfMemory
  import Wrappers
  import Session
  import SessionSafety
  import SessionProgress
  import SessionOutcome

  /** d is what the upload of f stores from the load address on; an ELF file stores nothing there. */
  ghost predicate StoredBy(f: File, d: seq<byte>, beef: bool) {
    if f.Elf? then d == [] else |f.data| < 0x8000_0000 && forall b | b == beef :: d == StoredImage(f.data, b)
  }

  /** ds is what the files store, file by file. */
  ghost predicate Stored(files: seq<File>, ds: seq<seq<byte>>, beef: bool) {
    |ds| == |files| &&
    forall j {:trigger StoredBy(files[j], ds[j], beef)} | 0 <= j < |files| :: StoredBy(files[j], ds[j], beef)
  }

  predicate AllBinary(files: seq<File>) {
    forall j | 0 <= j < |files| :: files[j].Binary?
  }

  /** With zeros for zeros, a file of which something can be sent is stored as it is, up to its last word. */
  lemma StoredPlain(f: File, d: seq<byte>)
    requires f.Binary? && StoredBy(f, d, false) && Uploadable(f.data)
    ensures d == Image(f.data)
  {
    StoredIsImage(f.data, false);
  }

  // ---------- One file ----------

  /** A request for data at no more than n addresses from e on; they may wrap around. */
  predicate Inside(r: Request, e: u32, n: int) {
    match r
    case Load(a, d) => |d| < 0x8000_0000 && (a - e) % SPACE + |d| <= n
    case Zero(a, size, _) => (a - e) % SPACE + size <= n
    case _ => false
  }

  predicate AllInside(s: seq<Request>, e: u32, n: int) {
    forall j | 0 <= j < |s| :: Inside(s[j], e, n)
  }

  lemma PartInside(data: seq<byte>, e: u32, beef: bool, c: seq<nat>, j: nat)
    requires |data| < 0x8000_0000 && CutsOf(|data|, c) && j + 1 < |c|
    ensures Inside(PartRequests(data, e, beef, c)[j], e, 4 * (|data| / 4))
  {
    assert Ordered(c, j, |data|);
    OffsetUnique(Moved(e, 4 * c[j]), e, 4 * c[j]);
  }

  lemma PartsInside(data: seq<byte>, e: u32, beef: bool, c: seq<nat>)
    requires |data| < 0x8000_0000 && CutsOf(|data|, c)
    ensures AllInside(PartRequests(data, e, beef, c), e, 4 * (|data| / 4))
  {
    forall j | 0 <= j < |c| - 1 ensures Inside(PartRequests(data, e, beef, c)[j], e, 4 * (|data| / 4)) {
      PartInside(data, e, beef, c, j);
    }
  }

  lemma BinaryInside(data: seq<byte>, e: u32, beef: bool, m: nat)
    requires |data| < 0x8000_0000 && m == |StoredImage(data, beef)|
    ensures AllInside(BinaryScript(data, e, beef), e, m)
  {
    if FileCuts(data)[1] > 0 {
      SentLength(data, beef);
      PartsSent(e, data, beef);
      PartsInside(data, e, beef, FileCuts(data));
    }
  }

  /** Every memory gets d stored from e on. */
  ghost predicate Stores(s: seq<Request>, e: u32, d: seq<byte>) {
    forall mem: Memory :: EffectAll(s, mem) == Write(mem, e, d)
  }

  /** What the upload of one file to the address e does. */
  lemma OneFile(f: File, d: seq<byte>, e: u32, beef: bool) returns (s: seq<Request>)
    requires f.Binary? && StoredBy(f, d, beef)
    ensures s == BinaryScript(f.data, e, beef) && Stores(s, e, d) && AllInside(s, e, |d|)
  {
    s := BinaryScript(f.data, e, beef);
    BinaryInside(f.data, e, beef, |d|);
    forall mem: Memory ensures EffectAll(s, mem) == Write(mem, e, d) { UploadEffect(mem, e, f.data, beef); }
  }

  // ---------- One behind the other ----------

  lemma OffsetShift(x: u32, e: u32, off: nat, n: nat)
    requires off + n < SPACE && (x - Moved(e, off)) % SPACE <= n
    ensures (x - e) % SPACE == off + (x - Moved(e, off)) % SPACE
  {
    var k := (x - Moved(e, off)) % SPACE;
    OffsetUnique(x, Moved(e, off), k);
    MovedTwice(e, off, k);
    OffsetUnique(x, e, off + k);
  }

  lemma InsideShift(r: Request, a: u32, e: u32, off: nat, n: nat)
    requires Inside(r, a, n) && a == Moved(e, off) && off + n < SPACE
    ensures Inside(r, e, off + n)
  {
    OffsetShift(r.address, e, off, n);
  }

  lemma InsideConcat(s: seq<Request>, t: seq<Request>, e: u32, off: nat, a: u32, n: nat)
    requires AllInside(s, e, off) && AllInside(t, a, n) && a == Moved(e, off) && off + n < SPACE
    ensures AllInside(s + t, e, off + n)
  {
    forall j | 0 <= j < |t| ensures Inside(t[j], e, off + n) { InsideShift(t[j], a, e, off, n); }
  }

  lemma StoresConcat(s: seq<Request>, t: seq<Request>, e: u32, d: seq<byte>, a: u32, p: seq<byte>)
    requires Stores(s, e, d) && Stores(t, a, p) && a == Moved(e, |d|) && |d| + |p| <= SPACE
    ensures Stores(s + t, e, d + p)
  {
    forall mem: Memory ensures EffectAll(s + t, mem) == Write(mem, e, d + p) {
      EffectConcat(s, t, mem);
      WriteBehind(mem, e, a, d, p);
    }
  }

  /** Where a binary file after the first k files goes: behind what they have stored, ELF files not counted. */
  lemma {:induction false} AddressMoved(files: seq<File>, ds: seq<seq<byte>>, k: nat, e: u32, beef: bool)
      returns (a: u32, n: nat)
    requires Stored(files, ds, beef) && k <= |files|
    ensures a == LoadAddress(files, k, e) && n == |Joined(ds, k)| && a == Moved(e, n)
  {
    a, n := e, 0;
    if k > 0 {
      var a0, n0 := AddressMoved(files, ds, k - 1, e, beef);
      assert StoredBy(files[k - 1], ds[k - 1], beef);
      a, n := AddressNext(files[k - 1], ds[k - 1], a0, n0, e, beef);
    }
  }

  lemma AddressNext(f: File, d: seq<byte>, a0: u32, n0: nat, e: u32, beef: bool) returns (a: u32, n: nat)
    requires StoredBy(f, d, beef) && a0 == Moved(e, n0)
    ensures a == LoadAfter(f, a0) && n == n0 + |d| && a == Moved(e, n)
  {
    if f.Elf? { return a0, n0; }
    StoredSize(f, d, beef);
    a, n := AddressBehind(f.data, |d|, a0, n0, e);
  }

  lemma AddressBehind(data: seq<byte>, m: nat, a0: u32, n0: nat, e: u32) returns (a: u32, n: nat)
    requires m == UploadLength(data) && a0 == Moved(e, n0)
    ensures a == NextLoad(a0, data) && n == n0 + m && a == Moved(e, n)
  {
    a, n := Moved(a0, m), n0 + m;
    MovedTwice(e, n0, m);
  }

  lemma StoredSize(f: File, d: seq<byte>, beef: bool)
    requires f.Binary? && StoredBy(f, d, beef)
    ensures |d| == UploadLength(f.data)
  {
    StoredLength(f.data, beef);
  }

  /** The last of the first k files. */
  lemma LastFile(files: seq<File>, cs: seq<seq<seq<byte>>>, ds: seq<seq<byte>>, k: nat, e: u32, beef: bool, a: u32)
      returns (t: seq<Request>)
    requires FilesOk(files) && AllContents(files, cs) && Stored(files, ds, beef) && 0 < k <= |cs|
    requires AllBinary(files) && a == LoadAddress(files, k - 1, e)
    ensures FilesScript(files, cs, k, e, beef) == FilesScript(files, cs, k - 1, e, beef) + t
    ensures Stores(t, a, ds[k - 1]) && AllInside(t, a, |ds[k - 1]|)
  {
    assert StoredBy(files[k - 1], ds[k - 1], beef);
    t := OneFile(files[k - 1], ds[k - 1], a, beef);
  }

  lemma LastBehind(files: seq<File>, cs: seq<seq<seq<byte>>>, ds: seq<seq<byte>>, k: nat, e: u32, beef: bool,
                   d0: seq<byte>)
      returns (t: seq<Request>, a: u32)
    requires FilesOk(files) && AllContents(files, cs) && Stored(files, ds, beef) && 0 < k <= |cs|
    requires AllBinary(files) && d0 == Joined(ds, k - 1)
    ensures FilesScript(files, cs, k, e, beef) == FilesScript(files, cs, k - 1, e, beef) + t
    ensures a == Moved(e, |d0|) && Stores(t, a, ds[k - 1]) && AllInside(t, a, |ds[k - 1]|)
  {
    var n;
    a, n := AddressMoved(files, ds, k - 1, e, beef);
    t := LastFile(files, cs, ds, k, e, beef, a);
  }

  lemma BehindJoined(s: seq<Request>, t: seq<Request>, e: u32, d0: seq<byte>, p: seq<byte>, a: u32)
    requires Stores(s, e, d0) && AllInside(s, e, |d0|) && a == Moved(e, |d0|) && |d0| + |p| < SPACE
    requires Stores(t, a, p) && AllInside(t, a, |p|)
    ensures Stores(s + t, e, d0 + p) && AllInside(s + t, e, |d0 + p|)
  {
    StoresConcat(s, t, e, d0, a, p);
    InsideConcat(s, t, e, |d0|, a, |p|);
  }

  /** What binary files store lies back to back in memory. */
  lemma {:induction false} BackToBack(files: seq<File>, cs: seq<seq<seq<byte>>>, ds: seq<seq<byte>>, k: nat, e: u32,
                                      beef: bool)
      returns (s: seq<Request>, d: seq<byte>)
    requires FilesOk(files) && AllContents(files, cs) && Stored(files, ds, beef) && k <= |cs|
    requires AllBinary(files) && |Joined(ds, k)| < SPACE
    ensures s == FilesScript(files, cs, k, e, beef) && d == Joined(ds, k)
    ensures Stores(s, e, d) && AllInside(s, e, |d|)
  {
    if k == 0 {
      StoresNothing(e);
      return [], [];
    }
    var s0, d0 := BackToBack(files, cs, ds, k - 1, e, beef);
    var t, a := LastBehind(files, cs, ds, k, e, beef, d0);
    s, d := s0 + t, d0 + ds[k - 1];
    BehindJoined(s0, t, e, d0, ds[k - 1], a);
  }

  lemma StoresNothing(e: u32)
    ensures Stores([], e, [])
  {
    forall mem: Memory ensures EffectAll([], mem) == Write(mem, e, []) { WriteNothing(mem, e); }
  }

  // ---------- The whole session ----------

  lemma InsideAccepted(area: Area, r: Request, e: u32, n: nat)
    requires Placed(area) && Clear(area, e, n) && Inside(r, e, n)
    ensures Sendable(r) && InRange(area, r)
  {
    var off := (r.address - e) % SPACE;
    OffsetUnique(r.address, e, off);
    ClearShort(area, e, n);
    ClearAccepts(area, e, n, off, if r.Load? then |r.data| else r.size);
  }

  /** A session over a line that damages nothing. */
  function CleanConfig(area: Area, script: seq<Request>, mem: Memory): Session.Config
    requires AllSendable(script)
  {
    Session.Config(area, script,
      seq(|script|, j requires 0 <= j < |script| => Session.PacketOf(script[j], PayloadOf(script[j]))), mem)
  }

  lemma CleanGoodAt(c: Session.Config, k: nat)
    requires AllSendable(c.script) && c == CleanConfig(c.area, c.script, c.mem)
    requires Session.WellFormed(c) && k < |c.script| && InRange(c.area, c.script[k])
    ensures SessionOutcome.GoodAt(c, k)
  {
  }

  ghost predicate AllInRange(area: Area, script: seq<Request>) {
    forall j | 0 <= j < |script| :: InRange(area, script[j])
  }

  lemma CleanGood(c: Session.Config)
    requires AllSendable(c.script) && c == CleanConfig(c.area, c.script, c.mem)
    requires Session.WellFormed(c) && AllInRange(c.area, c.script)
    ensures SessionOutcome.Good(c, |c.script|)
  {
    forall j | 0 <= j < |c.script| ensures SessionOutcome.GoodAt(c, j) { CleanGoodAt(c, j); }
    SessionOutcome.AllGood(c, |c.script|);
  }

  /** Requests for data that the Pi accepts. */
  predicate AllAccepted(area: Area, s: seq<Request>) {
    forall j | 0 <= j < |s| :: (s[j].Load? || s[j].Zero?) && Sendable(s[j]) && InRange(area, s[j])
  }

  lemma InsideClear(area: Area, s: seq<Request>, e: u32, n: nat)
    requires Placed(area) && Clear(area, e, n) && AllInside(s, e, n)
    ensures AllAccepted(area, s)
  {
    forall j | 0 <= j < |s| ensures (s[j].Load? || s[j].Zero?) && Sendable(s[j]) && InRange(area, s[j]) {
      InsideAccepted(area, s[j], e, n);
    }
  }

  /** What may follow the data: nothing, REBOOT, or EXEC. */
  predicate AtMostOneAction(last: seq<Request>) {
    last == [] || (|last| == 1 && (last[0].Reboot? || last[0].Exec?))
  }

  /** A ping, accepted data, and at most one action. */
  lemma DataScript(area: Area, s: seq<Request>, last: seq<Request>, script: seq<Request>)
    requires AllAccepted(area, s) && AtMostOneAction(last) && script == [Ping] + s + last
    ensures AllInRange(area, script) && SessionSafety.ExecLast(script)
  {
    forall j | 0 <= j < |script| ensures InRange(area, script[j]) && (j < |script| - 1 ==> !script[j].Exec?) {
      if 0 < j <= |s| { assert script[j] == s[j - 1]; }
    }
  }

  lemma ActionEffect(last: seq<Request>, mem: Memory)
    requires AtMostOneAction(last)
    ensures EffectAll(last, mem) == mem
  {
    if last != [] {
      assert last == [last[0]];
      EffectOne(last[0], mem);
    }
  }

  lemma DataEffect(s: seq<Request>, last: seq<Request>, mem: Memory)
    requires AtMostOneAction(last)
    ensures EffectAll([Ping] + s + last, mem) == EffectAll(s, mem)
  {
    EffectConcat([Ping] + s, last, mem);
    EffectConcat([Ping], s, mem);
    EffectOne(Ping, mem);
    ActionEffect(last, EffectAll(s, mem));
  }

  /** Where the Pi is after that: in the program if it was told to start one, otherwise between two packets. */
  function PhaseAfter(last: seq<Request>): Session.Phase {
    if last != [] && last[0].Exec? then Session.Running(last[0].address, !last[0].noWatchdog)
    else Session.Reading([])
  }

  lemma EndsIn(c: Session.Config, s: seq<Request>, last: seq<Request>)
    requires AllAccepted(c.area, s) && AtMostOneAction(last) && c.script == [Ping] + s + last
    requires AllSendable(c.script) && c == CleanConfig(c.area, c.script, c.mem) && Session.WellFormed(c)
    ensures SessionSafety.EndPhase(c, |c.script|) == PhaseAfter(last)
  {
    var k := |c.script| - 1;
    assert Session.Arrives(c.script[k], c.packets[k]);
    if last == [] && s != [] { assert c.script[k] == s[|s| - 1]; }
  }

  /** Every schedule takes the same number of steps, and its end is u. */
  ghost predicate EndsAt(c: Session.Config, acts: seq<Session.Action>, u: Session.System)
    requires Session.WellFormed(c) && Session.Valid(c, Session.Init(c), acts)
  {
    var t := Session.After(c, Session.Init(c), acts);
    |acts| <= SessionProgress.Work(c, 0) &&
    (Session.Stuck(c, t) <==> |acts| == SessionProgress.Work(c, 0)) &&
    (|acts| == SessionProgress.Work(c, 0) ==> t == u)
  }

  /** The end of a session of c: all requests acknowledged and nothing on its way. */
  function DoneSystem(c: Session.Config, phase: Session.Phase, mem: Memory): Session.System {
    Session.System(Session.ClientState(|c.script|, 0, [], Wrappers.None), phase, mem, [], [])
  }

  /** A session of a ping, accepted data and at most one action, over a line that damages nothing. */
  lemma DataSession(c: Session.Config, s: seq<Request>, last: seq<Request>, acts: seq<Session.Action>)
    requires AllAccepted(c.area, s) && AtMostOneAction(last) && c.script == [Ping] + s + last
    requires AllSendable(c.script) && c == CleanConfig(c.area, c.script, c.mem)
    requires Session.WellFormed(c) && Session.Valid(c, Session.Init(c), acts)
    ensures EndsAt(c, acts, DoneSystem(c, PhaseAfter(last), EffectAll(s, c.mem)))
  {
    DataScript(c.area, s, last, c.script);
    CleanGood(c);
    EndsIn(c, s, last);
    DataEffect(s, last, c.mem);
    SessionOutcome.AcceptedSession(c, acts);
  }

  lemma {:induction false} EntryUnchanged(files: seq<File>, k: nat, entry: u32)
    requires AllBinary(files) && k <= |files|
    ensures EntryPoint(files, k, entry) == entry
  {
    if k > 0 {
      EntryUnchanged(files, k - 1, entry);
    }
  }

  lemma BinariesAccepted(area: Area, files: seq<File>, cs: seq<seq<seq<byte>>>, ds: seq<seq<byte>>, e: u32, beef: bool,
                         entry: u32, noWatchdog: bool, mem: Memory)
      returns (s: seq<Request>)
    requires Placed(area) && FilesOk(files) && AllContents(files, cs) && |cs| == |files| && Stored(files, ds, beef)
    requires AllBinary(files) && Clear(area, e, |Joined(ds, |files|)|)
    ensures SessionScript(files, cs, e, beef, LactExec, entry, noWatchdog) == [Ping] + s + [Exec(entry, noWatchdog)]
    ensures AllAccepted(area, s) && EffectAll(s, mem) == Write(mem, e, Joined(ds, |files|))
  {
    EntryUnchanged(files, |files|, entry);
    ClearShort(area, e, |Joined(ds, |files|)|);
    var d;
    s, d := BackToBack(files, cs, ds, |files|, e, beef);
    InsideClear(area, s, e, |d|);
  }

  /**
   However the bytes are interleaved, uploading binary files to a range clear of the bootloader takes the same
   number of steps, ends with what they store back to back in memory and every other byte as it was, and with
   the Pi running at the entry address.
   */
  lemma EndToEnd(area: Area, files: seq<File>, cs: seq<seq<seq<byte>>>, ds: seq<seq<byte>>, e: u32, beef: bool,
                 entry: u32, noWatchdog: bool, mem: Memory, c: Session.Config, acts: seq<Session.Action>)
    requires Placed(area) && FilesOk(files) && AllContents(files, cs) && |cs| == |files| && Stored(files, ds, beef)
    requires AllBinary(files) && Clear(area, e, |Joined(ds, |files|)|)
    requires var script := SessionScript(files, cs, e, beef, LactExec, entry, noWatchdog);
      AllSendable(script) && c == CleanConfig(area, script, mem)
    requires Session.WellFormed(c) && Session.Valid(c, Session.Init(c), acts)
    ensures EndsAt(c, acts, DoneSystem(c, Session.Running(entry, !noWatchdog), Write(mem, e, Joined(ds, |files|))))
  {
    var s := BinariesAccepted(area, files, cs, ds, e, beef, entry, noWatchdog, mem);
    DataSession(c, s, [Exec(entry, noWatchdog)], acts);
  }

  // ---------- ELF ----------

  /** Every segment is clear of the bootloader. */
  ghost predicate SegmentsClear(area: Area, phdrs: seq<Phdr>) {
    forall j | 0 <= j < |phdrs| && phdrs[j].pType == PT_LOAD :: Clear(area, phdrs[j].paddr, phdrs[j].memsz)
  }

  lemma SegmentClear(area: Area, data: seq<byte>, ph: Phdr)
    requires Placed(area) && LoadableSegment(data, ph) && ph.pType == PT_LOAD && Clear(area, ph.paddr, ph.memsz)
    ensures Accepts(area, ph.paddr, ph.filesz)
    ensures Accepts(area, Moved(ph.paddr, ph.filesz), ZeroSize(ph))
  {
    ClearAccepts(area, ph.paddr, ph.memsz, 0, ph.filesz);
    ClearAccepts(area, ph.paddr, ph.memsz, ph.filesz, ZeroSize(ph));
  }

  lemma SegmentAccepted(area: Area, data: seq<byte>, ph: Phdr, d: seq<byte>, beef: bool)
    requires Placed(area) && LoadableSegment(data, ph) && |d| == ph.filesz
    requires ph.pType == PT_LOAD ==> Clear(area, ph.paddr, ph.memsz)
    ensures AllAccepted(area, SegmentRequests(ph, d, beef))
  {
    if ph.pType == PT_LOAD { SegmentClear(area, data, ph); }
  }

  lemma AcceptedConcat(area: Area, s: seq<Request>, t: seq<Request>)
    requires AllAccepted(area, s) && AllAccepted(area, t)
    ensures AllAccepted(area, s + t)
  {
  }

  lemma {:induction false} ElfAccepted(area: Area, f: ElfFile, contents: seq<seq<byte>>, k: nat, beef: bool)
      returns (s: seq<Request>)
    requires Placed(area) && Loadable(f) && Contents(f, contents) && k <= |contents| && SegmentsClear(area, f.phdrs)
    ensures s == ElfScript(f.phdrs, contents, k, beef) && AllAccepted(area, s)
  {
    if k == 0 { return []; }
    var s0 := ElfAccepted(area, f, contents, k - 1, beef);
    var t := SegmentRequests(f.phdrs[k - 1], contents[k - 1], beef);
    SegmentAccepted(area, f.data, f.phdrs[k - 1], contents[k - 1], beef);
    AcceptedConcat(area, s0, t);
    s := s0 + t;
  }

  lemma OneElf(f: ElfFile, contents: seq<seq<byte>>, e: u32, beef: bool, entry: u32, noWatchdog: bool)
    requires SmallSegments(f.phdrs) && Contents(f, contents) && |contents| == |f.phdrs|
    ensures FilesOk([Elf(f)]) && AllContents([Elf(f)], [contents])
    ensures SessionScript([Elf(f)], [contents], e, beef, LactExec, entry, noWatchdog)
         == [Ping] + ElfScript(f.phdrs, contents, |f.phdrs|, beef) + [Exec(f.entry, noWatchdog)]
  {
    var s := ElfScript(f.phdrs, contents, |f.phdrs|, beef);
    assert FilesScript([Elf(f)], [contents], 0, e, beef) + s == s;
    assert FilesScript([Elf(f)], [contents], 1, e, beef) == s;
    assert EntryPoint([Elf(f)], 1, entry) == f.entry;
  }

  /**
   However the bytes are interleaved, uploading an ELF file with segments clear of the bootloader ends with
   every byte as the last segment that covers it asks for, the others as they were, and with the Pi running
   at the entry point of the file.
   */
  lemma ElfEndToEnd(area: Area, f: ElfFile, contents: seq<seq<byte>>, e: u32, beef: bool, entry: u32, noWatchdog: bool,
                    mem: Memory, c: Session.Config, acts: seq<Session.Action>)
      returns (m: Memory)
    requires Placed(area) && Loadable(f) && SegmentsClear(area, f.phdrs)
    requires Contents(f, contents) && |contents| == |f.phdrs|
    requires FilesOk([Elf(f)]) && AllContents([Elf(f)], [contents])
    requires var script := SessionScript([Elf(f)], [contents], e, beef, LactExec, entry, noWatchdog);
      AllSendable(script) && c == CleanConfig(area, script, mem)
    requires Session.WellFormed(c) && Session.Valid(c, Session.Init(c), acts)
    ensures EndsAt(c, acts, DoneSystem(c, Session.Running(f.entry, !noWatchdog), m))
    ensures forall x | 0 <= x < SPACE :: m[x] == LoadedByte(f, |f.phdrs|, beef, mem, x)
  {
    OneElf(f, contents, e, beef, entry, noWatchdog);
    var s := ElfAccepted(area, f, contents, |f.phdrs|, beef);
    DataSession(c, s, [Exec(f.entry, noWatchdog)], acts);
    m := EffectAll(s, mem);
    forall x | 0 <= x < SPACE ensures m[x] == LoadedByte(f, |f.phdrs|, beef, mem, x) {
      LastSegmentWins(f, contents, |f.phdrs|, beef, mem, x);
    }
  }
}
