/**
 A whole session, for any list of files in either format and for every final action: what lies in memory at the end,
 where the Pi is, and what has gone over the line (client/bootpc.c, client/options.c).
 */
module Files {
  import opened Bytes
  import opened Memory
  import opened Protocol
  import opened BinaryLoad
  import opened BinaryImage
  import opened ElfLoad
  import opened ElfMemory
  import opened Bootpc
  import opened BootArea
  import opened Upload
  import opened PiRuns
  import opened Stream
  import ClientSteps
  import Session

  // ---------- What the files ask for ----------

  /** Where file j goes, if it is a binary one: behind the binary files before it. */
  function Place(ds: seq<seq<byte>>, e: u32, j: nat): u32
    requires j <= |ds|
  {
    Moved(e, |Joined(ds, j)|)
  }

  /** The file asks for something at the address x; a binary file goes to a and is stored as d. */
  predicate FileCovers(f: File, d: seq<byte>, a: u32, x: int) {
    match f
    case Elf(elf) => LastCover(elf.phdrs, |elf.phdrs|, x) >= 0
    case Binary(_) => (x - a) % SPACE < |d|
  }

  /** What it asks for. */
  function FileByte(f: File, d: seq<byte>, a: u32, beef: bool, x: int): byte
    requires FileCovers(f, d, a, x) && (f.Elf? ==> Loadable(f.elf))
  {
    match f
    case Elf(elf) => SegmentByteAt(elf.data, elf.phdrs[LastCover(elf.phdrs, |elf.phdrs|, x)], beef, x)
    case Binary(_) => d[(x - a) % SPACE]
  }

  predicate AllLoadable(files: seq<File>) {
    forall j {:trigger Loadable(files[j].elf)} | 0 <= j < |files| && files[j].Elf? :: Loadable(files[j].elf)
  }

  /** The last of the first k files that asks for something at x, or -1. */
  function LastAsking(files: seq<File>, ds: seq<seq<byte>>, e: u32, k: nat, x: int): (j: int)
    requires k <= |files| == |ds|
    ensures -1 <= j < k && (j >= 0 ==> FileCovers(files[j], ds[j], Place(ds, e, j), x))
    ensures forall i {:trigger FileCovers(files[i], ds[i], Place(ds, e, i), x)} | j < i < k ::
      !FileCovers(files[i], ds[i], Place(ds, e, i), x)
  {
    if k == 0 then -1
    else if FileCovers(files[k - 1], ds[k - 1], Place(ds, e, k - 1), x) then k - 1
    else LastAsking(files, ds, e, k - 1, x)
  }

  /** The byte that the first k files leave at x: what the last that asks for one asks for, or what was there. */
  function FinalByte(files: seq<File>, ds: seq<seq<byte>>, e: u32, beef: bool, k: nat, mem: Memory, x: int): byte
    requires k <= |files| == |ds| && AllLoadable(files) && 0 <= x < SPACE
  {
    var j := LastAsking(files, ds, e, k, x);
    if j < 0 then mem[x] else FileByte(files[j], ds[j], Place(ds, e, j), beef, x)
  }

  /** The last of the first k files that is an ELF file, or -1. */
  function LastElf(files: seq<File>, k: nat): (j: int)
    requires k <= |files|
    ensures -1 <= j < k && (j >= 0 ==> files[j].Elf?) && forall i | j < i < k :: !files[i].Elf?
  {
    if k == 0 then -1 else if files[k - 1].Elf? then k - 1 else LastElf(files, k - 1)
  }

  /** Where a program is started: at the entry point of the last ELF file, or at the address given. */
  function StartOf(files: seq<File>, entry: u32): u32 {
    var j := LastElf(files, |files|);
    if j < 0 then entry else files[j].elf.entry
  }

  // ---------- Memory ----------

  /** At x the requests t store what the file asks for there, and nothing if it asks for nothing. */
  ghost predicate FulfilsAt(t: seq<Request>, f: File, d: seq<byte>, a: u32, beef: bool, mem: Memory, x: int)
    requires 0 <= x < SPACE && (f.Elf? ==> Loadable(f.elf))
  {
    EffectAll(t, mem)[x] == if FileCovers(f, d, a, x) then FileByte(f, d, a, beef, x) else mem[x]
  }

  lemma BinaryEffect(f: File, d: seq<byte>, a: u32, beef: bool, t: seq<Request>, mem: Memory, x: int)
    requires f.Binary? && StoredBy(f, d, beef) && 0 <= x < SPACE && t == BinaryScript(f.data, a, beef)
    ensures FulfilsAt(t, f, d, a, beef, mem, x)
  {
    UploadEffect(mem, a, f.data, beef);
    WriteAt(mem, a, d, x);
  }

  lemma ElfEffect(f: File, c: seq<seq<byte>>, d: seq<byte>, a: u32, beef: bool, t: seq<Request>, mem: Memory, x: int)
    requires f.Elf? && ContentsOf(f, c) && Loadable(f.elf) && 0 <= x < SPACE
    requires t == ElfScript(f.elf.phdrs, c, |f.elf.phdrs|, beef)
    ensures FulfilsAt(t, f, d, a, beef, mem, x)
  {
    LastSegmentWins(f.elf, c, |f.elf.phdrs|, beef, mem, x);
  }

  lemma FinalNext(files: seq<File>, ds: seq<seq<byte>>, e: u32, beef: bool, k: nat, mem: Memory, x: int, a: u32)
    requires 0 < k <= |files| == |ds| && AllLoadable(files) && 0 <= x < SPACE && a == Place(ds, e, k - 1)
    ensures var f, d := files[k - 1], ds[k - 1];
      FinalByte(files, ds, e, beef, k, mem, x)
      == if FileCovers(f, d, a, x) then FileByte(f, d, a, beef, x) else FinalByte(files, ds, e, beef, k - 1, mem, x)
  {
  }

  lemma ScriptNext(files: seq<File>, cs: seq<seq<seq<byte>>>, k: nat, e: u32, beef: bool, a: u32)
      returns (s: seq<Request>, f: File, c: seq<seq<byte>>, t: seq<Request>)
    requires FilesOk(files) && AllContents(files, cs) && 0 < k <= |cs| && a == LoadAddress(files, k - 1, e)
    ensures s == FilesScript(files, cs, k - 1, e, beef) && FilesScript(files, cs, k, e, beef) == s + t
    ensures f == files[k - 1] && c == cs[k - 1] && FileOk(f) && ContentsOf(f, c) && t == FileScript(f, c, a, beef)
  {
    s, f, c := FilesScript(files, cs, k - 1, e, beef), files[k - 1], cs[k - 1];
    t := FileScript(f, c, a, beef);
  }

  lemma PlaceOf(files: seq<File>, ds: seq<seq<byte>>, k: nat, e: u32, beef: bool) returns (a: u32)
    requires Stored(files, ds, beef) && k <= |files|
    ensures a == LoadAddress(files, k, e) && a == Place(ds, e, k)
  {
    var n;
    a, n := AddressMoved(files, ds, k, e, beef);
  }

  /** The last of the first k files, where it goes, and what it adds to the requests for those before it. */
  lemma ScriptLast(files: seq<File>, cs: seq<seq<seq<byte>>>, ds: seq<seq<byte>>, k: nat, e: u32, beef: bool)
      returns (s: seq<Request>, f: File, c: seq<seq<byte>>, a: u32, t: seq<Request>)
    requires FilesOk(files) && AllContents(files, cs) && Stored(files, ds, beef) && 0 < k <= |cs|
    ensures s == FilesScript(files, cs, k - 1, e, beef) && FilesScript(files, cs, k, e, beef) == s + t
    ensures f == files[k - 1] && FileOk(f) && ContentsOf(f, c) && StoredBy(f, ds[k - 1], beef)
    ensures a == Place(ds, e, k - 1) && t == FileScript(f, c, a, beef)
  {
    a := PlaceOf(files, ds, k - 1, e, beef);
    s, f, c, t := ScriptNext(files, cs, k, e, beef, a);
  }

  /** The requests t store what the file asks for, and nothing else. */
  ghost predicate Fulfils(t: seq<Request>, f: File, d: seq<byte>, a: u32, beef: bool)
    requires f.Elf? ==> Loadable(f.elf)
  {
    forall mem: Memory, x | 0 <= x < SPACE :: FulfilsAt(t, f, d, a, beef, mem, x)
  }

  lemma BinaryFulfils(f: File, d: seq<byte>, a: u32, beef: bool, t: seq<Request>)
    requires f.Binary? && StoredBy(f, d, beef) && t == BinaryScript(f.data, a, beef)
    ensures Fulfils(t, f, d, a, beef)
  {
    forall mem: Memory, x | 0 <= x < SPACE ensures FulfilsAt(t, f, d, a, beef, mem, x) {
      BinaryEffect(f, d, a, beef, t, mem, x);
    }
  }

  lemma ElfFulfils(f: File, c: seq<seq<byte>>, d: seq<byte>, a: u32, beef: bool, t: seq<Request>)
    requires f.Elf? && ContentsOf(f, c) && Loadable(f.elf) && t == ElfScript(f.elf.phdrs, c, |f.elf.phdrs|, beef)
    ensures Fulfils(t, f, d, a, beef)
  {
    forall mem: Memory, x | 0 <= x < SPACE ensures FulfilsAt(t, f, d, a, beef, mem, x) {
      ElfEffect(f, c, d, a, beef, t, mem, x);
    }
  }

  lemma FileFulfils(f: File, c: seq<seq<byte>>, d: seq<byte>, a: u32, beef: bool, t: seq<Request>)
    requires FileOk(f) && ContentsOf(f, c) && StoredBy(f, d, beef) && (f.Elf? ==> Loadable(f.elf))
    requires t == FileScript(f, c, a, beef)
    ensures Fulfils(t, f, d, a, beef)
  {
    if f.Elf? { ElfFulfils(f, c, d, a, beef, t); } else { BinaryFulfils(f, d, a, beef, t); }
  }

  lemma LastFulfils(files: seq<File>, cs: seq<seq<seq<byte>>>, ds: seq<seq<byte>>, k: nat, e: u32, beef: bool)
      returns (a: u32, t: seq<Request>)
    requires FilesOk(files) && AllContents(files, cs) && Stored(files, ds, beef) && AllLoadable(files) && 0 < k <= |cs|
    ensures FilesScript(files, cs, k, e, beef) == FilesScript(files, cs, k - 1, e, beef) + t
    ensures a == Place(ds, e, k - 1) && Fulfils(t, files[k - 1], ds[k - 1], a, beef)
  {
    var s, f, c;
    s, f, c, a, t := ScriptLast(files, cs, ds, k, e, beef);
    FileFulfils(f, c, ds[k - 1], a, beef, t);
  }

  lemma OneMoreFile(files: seq<File>, ds: seq<seq<byte>>, e: u32, beef: bool, k: nat, mem: Memory, x: int, a: u32,
                    s: seq<Request>, t: seq<Request>)
    requires 0 < k <= |files| == |ds| && AllLoadable(files) && 0 <= x < SPACE && a == Place(ds, e, k - 1)
    requires Fulfils(t, files[k - 1], ds[k - 1], a, beef)
    requires EffectAll(s, mem)[x] == FinalByte(files, ds, e, beef, k - 1, mem, x)
    ensures EffectAll(s + t, mem)[x] == FinalByte(files, ds, e, beef, k, mem, x)
  {
    EffectConcat(s, t, mem);
    assert FulfilsAt(t, files[k - 1], ds[k - 1], a, beef, EffectAll(s, mem), x);
    FinalNext(files, ds, e, beef, k, mem, x, a);
  }

  /** b is the byte that the first k files leave at x. */
  ghost predicate Leaves(files: seq<File>, ds: seq<seq<byte>>, e: u32, beef: bool, k: nat, mem: Memory, x: int, b: byte)
    requires |files| == |ds| && AllLoadable(files) && 0 <= x < SPACE
  {
    forall i: nat {:trigger FinalByte(files, ds, e, beef, i, mem, x)} | i == k <= |files| ::
      b == FinalByte(files, ds, e, beef, i, mem, x)
  }

  lemma NextByte(files: seq<File>, cs: seq<seq<seq<byte>>>, ds: seq<seq<byte>>, k: nat, e: u32, beef: bool, mem: Memory,
                 x: int, s: seq<Request>)
      returns (t: seq<Request>)
    requires FilesOk(files) && AllContents(files, cs) && Stored(files, ds, beef) && AllLoadable(files) && 0 < k <= |cs|
    requires 0 <= x < SPACE && Leaves(files, ds, e, beef, k - 1, mem, x, EffectAll(s, mem)[x])
    ensures FilesScript(files, cs, k, e, beef) == FilesScript(files, cs, k - 1, e, beef) + t
    ensures Leaves(files, ds, e, beef, k, mem, x, EffectAll(s + t, mem)[x])
  {
    var a;
    a, t := LastFulfils(files, cs, ds, k, e, beef);
    assert EffectAll(s, mem)[x] == FinalByte(files, ds, e, beef, k - 1, mem, x);
    OneMoreFile(files, ds, e, beef, k, mem, x, a, s, t);
  }

  /** s are the requests for the first k files. */
  ghost predicate Asked(files: seq<File>, cs: seq<seq<seq<byte>>>, e: u32, beef: bool, k: nat, s: seq<Request>)
    requires FilesOk(files) && AllContents(files, cs)
  {
    forall i: nat {:trigger FilesScript(files, cs, i, e, beef)} | i == k <= |cs| ::
      s == FilesScript(files, cs, i, e, beef)
  }

  lemma NoFiles(files: seq<File>, cs: seq<seq<seq<byte>>>, ds: seq<seq<byte>>, e: u32, beef: bool, mem: Memory, x: int)
      returns (s: seq<Request>)
    requires FilesOk(files) && AllContents(files, cs) && Stored(files, ds, beef) && AllLoadable(files)
    requires 0 <= x < SPACE
    ensures Asked(files, cs, e, beef, 0, s) && Leaves(files, ds, e, beef, 0, mem, x, EffectAll(s, mem)[x])
  {
    s := [];
  }

  lemma MoreFiles(files: seq<File>, cs: seq<seq<seq<byte>>>, ds: seq<seq<byte>>, k: nat, e: u32, beef: bool,
                  mem: Memory, x: int, s0: seq<Request>)
      returns (s: seq<Request>)
    requires FilesOk(files) && AllContents(files, cs) && Stored(files, ds, beef) && AllLoadable(files)
    requires 0 < k <= |cs| && 0 <= x < SPACE && Asked(files, cs, e, beef, k - 1, s0)
    requires Leaves(files, ds, e, beef, k - 1, mem, x, EffectAll(s0, mem)[x])
    ensures Asked(files, cs, e, beef, k, s) && Leaves(files, ds, e, beef, k, mem, x, EffectAll(s, mem)[x])
  {
    var t := NextByte(files, cs, ds, k, e, beef, mem, x, s0);
    s := s0 + t;
  }

  lemma {:induction false} FilesLeave(files: seq<File>, cs: seq<seq<seq<byte>>>, ds: seq<seq<byte>>, k: nat, e: u32,
                                      beef: bool, mem: Memory, x: int)
      returns (s: seq<Request>)
    requires FilesOk(files) && AllContents(files, cs) && Stored(files, ds, beef) && AllLoadable(files)
    requires k <= |cs| && 0 <= x < SPACE
    ensures Asked(files, cs, e, beef, k, s) && Leaves(files, ds, e, beef, k, mem, x, EffectAll(s, mem)[x])
    decreases k
  {
    if k == 0 {
      s := NoFiles(files, cs, ds, e, beef, mem, x);
    } else {
      s := FilesLeave(files, cs, ds, k - 1, e, beef, mem, x);
      s := MoreFiles(files, cs, ds, k, e, beef, mem, x, s);
    }
  }

  /** Each byte is what the last file that asks for one asks for; where none does, it is as it was. */
  lemma LastFileWins(files: seq<File>, cs: seq<seq<seq<byte>>>, ds: seq<seq<byte>>, k: nat, e: u32, beef: bool,
                     mem: Memory, x: int)
    requires FilesOk(files) && AllContents(files, cs) && Stored(files, ds, beef) && AllLoadable(files)
    requires k <= |cs| && 0 <= x < SPACE
    ensures EffectAll(FilesScript(files, cs, k, e, beef), mem)[x] == FinalByte(files, ds, e, beef, k, mem, x)
  {
    var s := FilesLeave(files, cs, ds, k, e, beef, mem, x);
  }

  // ---------- The requests are accepted ----------

  /** What the file asks for is clear of the bootloader. */
  ghost predicate FileClear(area: Area, f: File, d: seq<byte>, a: u32) {
    match f
    case Elf(elf) => SegmentsClear(area, elf.phdrs)
    case Binary(_) => Clear(area, a, |d|)
  }

  ghost predicate FilesClear(area: Area, files: seq<File>, ds: seq<seq<byte>>, e: u32)
    requires |files| == |ds|
  {
    forall j {:trigger FileClear(area, files[j], ds[j], Place(ds, e, j))} | 0 <= j < |files| ::
      FileClear(area, files[j], ds[j], Place(ds, e, j))
  }

  lemma FileAccepted(area: Area, f: File, c: seq<seq<byte>>, d: seq<byte>, a: u32, beef: bool)
    requires Placed(area) && FileOk(f) && ContentsOf(f, c) && StoredBy(f, d, beef) && (f.Elf? ==> Loadable(f.elf))
    requires FileClear(area, f, d, a)
    ensures AllAccepted(area, FileScript(f, c, a, beef))
  {
    match f
    case Elf(elf) => var s := ElfAccepted(area, elf, c, |elf.phdrs|, beef);
    case Binary(_) =>
      var s := OneFile(f, d, a, beef);
      InsideClear(area, s, a, |d|);
  }

  lemma MoreAccepted(area: Area, files: seq<File>, cs: seq<seq<seq<byte>>>, ds: seq<seq<byte>>, k: nat, e: u32,
                     beef: bool, s0: seq<Request>)
      returns (s: seq<Request>)
    requires Placed(area) && FilesOk(files) && AllContents(files, cs) && Stored(files, ds, beef) && AllLoadable(files)
    requires FilesClear(area, files, ds, e) && 0 < k <= |cs|
    requires Asked(files, cs, e, beef, k - 1, s0) && AllAccepted(area, s0)
    ensures Asked(files, cs, e, beef, k, s) && AllAccepted(area, s)
  {
    var s1, f, c, a, t := ScriptLast(files, cs, ds, k, e, beef);
    assert FileClear(area, f, ds[k - 1], Place(ds, e, k - 1));
    FileAccepted(area, f, c, ds[k - 1], a, beef);
    AcceptedConcat(area, s0, t);
    s := s0 + t;
  }

  lemma NoneAccepted(area: Area, files: seq<File>, cs: seq<seq<seq<byte>>>, e: u32, beef: bool)
      returns (s: seq<Request>)
    requires FilesOk(files) && AllContents(files, cs)
    ensures Asked(files, cs, e, beef, 0, s) && AllAccepted(area, s)
  {
    s := [];
  }

  lemma {:induction false} FilesAccepted(area: Area, files: seq<File>, cs: seq<seq<seq<byte>>>, ds: seq<seq<byte>>,
                                         k: nat, e: u32, beef: bool)
      returns (s: seq<Request>)
    requires Placed(area) && FilesOk(files) && AllContents(files, cs) && Stored(files, ds, beef) && AllLoadable(files)
    requires FilesClear(area, files, ds, e) && k <= |cs|
    ensures Asked(files, cs, e, beef, k, s) && AllAccepted(area, s)
    decreases k
  {
    if k == 0 {
      s := NoneAccepted(area, files, cs, e, beef);
    } else {
      s := FilesAccepted(area, files, cs, ds, k - 1, e, beef);
      s := MoreAccepted(area, files, cs, ds, k, e, beef, s);
    }
  }

  lemma {:induction false} EntryOfLast(files: seq<File>, k: nat, entry: u32)
    requires k <= |files|
    ensures EntryPoint(files, k, entry)
         == var j := LastElf(files, k); if j < 0 then entry else files[j].elf.entry
  {
    if k > 0 { EntryOfLast(files, k - 1, entry); }
  }

  // ---------- The whole session ----------

  /** Where the Pi is after each action: in the program after LactExec, otherwise between two packets. */
  function PhaseOf(action: LoaderAction, start: u32, noWatchdog: bool): Session.Phase {
    if action == LactExec then Session.Running(start, !noWatchdog) else Session.Reading([])
  }

  lemma SessionRequests(area: Area, files: seq<File>, cs: seq<seq<seq<byte>>>, ds: seq<seq<byte>>, e: u32, beef: bool,
                        action: LoaderAction, entry: u32, noWatchdog: bool)
      returns (s: seq<Request>, last: seq<Request>)
    requires Placed(area) && FilesOk(files) && AllContents(files, cs) && |cs| == |files| && Stored(files, ds, beef)
    requires AllLoadable(files) && FilesClear(area, files, ds, e)
    ensures s == FilesScript(files, cs, |files|, e, beef) && AllAccepted(area, s) && AtMostOneAction(last)
    ensures SessionScript(files, cs, e, beef, action, entry, noWatchdog) == [Ping] + s + last
    ensures PhaseAfter(last) == PhaseOf(action, StartOf(files, entry), noWatchdog)
    ensures last == if action == LactExec then [Exec(StartOf(files, entry), noWatchdog)]
                    else if action == LactReboot then [Reboot]
                    else []
  {
    s := FilesAccepted(area, files, cs, ds, |files|, e, beef);
    EntryOfLast(files, |files|, entry);
    last := FinalScript(action, StartOf(files, entry), noWatchdog);
  }

  /**
   However the bytes are interleaved, a session with any files clear of the bootloader, and with any action, takes the
   same number of steps. At the end every request has been acknowledged, nothing is on its way, and the Pi is where the
   action puts it. Memory is then m, each byte of it what the last file that asks for it asks for.
   */
  lemma SessionEnds(area: Area, files: seq<File>, cs: seq<seq<seq<byte>>>, ds: seq<seq<byte>>, e: u32, beef: bool,
                    action: LoaderAction, entry: u32, noWatchdog: bool, mem: Memory, c: Session.Config,
                    acts: seq<Session.Action>)
      returns (m: Memory)
    requires 4096 <= area.runAddr < area.runEnd
    requires FilesOk(files) && AllContents(files, cs) && |cs| == |files| && Stored(files, ds, beef)
    requires AllLoadable(files) && FilesClear(area, files, ds, e)
    requires var script := SessionScript(files, cs, e, beef, action, entry, noWatchdog);
      AllSendable(script) && c == CleanConfig(area, script, mem)
    requires Session.WellFormed(c) && Session.Valid(c, Session.Init(c), acts)
    ensures EndsAt(c, acts,
      DoneSystem(c, if action == LactExec then Session.Running(StartOf(files, entry), !noWatchdog)
                    else Session.Reading([]), m))
    ensures forall x | 0 <= x < SPACE :: m[x] == FinalByte(files, ds, e, beef, |files|, mem, x)
  {
    var s, last := SessionRequests(area, files, cs, ds, e, beef, action, entry, noWatchdog);
    DataSession(c, s, last, acts);
    m := EffectAll(s, mem);
    forall x | 0 <= x < SPACE ensures m[x] == FinalByte(files, ds, e, beef, |files|, mem, x) {
      LastFileWins(files, cs, ds, |files|, e, beef, mem, x);
    }
  }

  // ---------- The line ----------

  lemma CleanFrame(c: Session.Config, k: nat) returns (f: seq<byte>)
    requires AllSendable(c.script) && c == CleanConfig(c.area, c.script, c.mem) && Session.WellFormed(c)
    requires k < |c.script|
    ensures f == c.packets[k].frame && f == Frame(c.script[k])
  {
    f := c.packets[k].frame;
  }

  lemma {:induction false} CleanWire(c: Session.Config, k: nat) returns (w: seq<byte>)
    requires AllSendable(c.script) && c == CleanConfig(c.area, c.script, c.mem) && Session.WellFormed(c)
    requires k <= |c.script|
    ensures w == ClientSteps.WireFrames(c, k) && w == Frames(c.script[..k])
    decreases k
  {
    if k == 0 { return []; }
    var w0 := CleanWire(c, k - 1);
    var f := CleanFrame(c, k - 1);
    FramesNext(c.script, k);
    w := w0 + f;
  }

  /** A client that has come to the end of its script has written the frames of it. */
  lemma StreamOf(c: Session.Config, acts: seq<Session.Action>)
    requires AllSendable(c.script) && c == CleanConfig(c.area, c.script, c.mem)
    requires Session.WellFormed(c) && Session.Valid(c, Session.Init(c), acts)
    requires var t := Session.After(c, Session.Init(c), acts); Session.Stuck(c, t) && t.client.done == |c.script|
    ensures Session.Sent(c, Session.Init(c), acts) == Frames(c.script)
  {
    var a := ClientSteps.StepsRefineExchange(c, Session.Init(c), acts);
    var w := CleanWire(c, |c.script|);
    assert c.script[..|c.script|] == c.script;
  }

  lemma {:induction false} ServedPrefix(area: Area, script: seq<Request>, k: nat)
    requires AllSendable(script) && AllInRange(area, script) && k <= |script|
    requires forall j | 0 <= j < k :: !script[j].Exec?
    ensures AllServed(area, script[..k])
  {
    if k > 0 {
      ServedPrefix(area, script, k - 1);
      assert script[..k][..k - 1] == script[..k - 1];
    }
  }

  lemma AnsweredScript(area: Area, s: seq<Request>, last: seq<Request>, script: seq<Request>)
    requires AllAccepted(area, s) && AtMostOneAction(last) && script == [Ping] + s + last && AllSendable(script)
    ensures AllAnswered(area, script)
  {
    DataScript(area, s, last, script);
    ServedPrefix(area, script, |script| - 1);
  }

  const PING_BYTES: seq<byte> := [0x50, 0x49, 0x4e, 0x47]
  const LOAD_BYTES: seq<byte> := [0x4c, 0x4f, 0x41, 0x44]
  const ZERO_BYTES: seq<byte> := [0x5a, 0x45, 0x52, 0x4f]
  const EXEC_BYTES: seq<byte> := [0x45, 0x58, 0x45, 0x43]
  const REBOOT_BYTES: seq<byte> := [0x58, 0x98, 0x93, 0x48]

  /** The packets for one program header, by their types. */
  function SegmentTypes(ph: Phdr): seq<seq<byte>> {
    if ph.pType != 1 then [] else if ph.memsz == ph.filesz then [LOAD_BYTES] else [LOAD_BYTES, ZERO_BYTES]
  }

  function ElfTypes(phdrs: seq<Phdr>, k: nat): seq<seq<byte>>
    requires k <= |phdrs|
  {
    if k == 0 then [] else ElfTypes(phdrs, k - 1) + SegmentTypes(phdrs[k - 1])
  }

  /** One packet for each part, LOAD and ZERO in turn; none at all when the first part is empty. */
  function BinaryTypes(data: seq<byte>): seq<seq<byte>> {
    var n := if FileCuts(data)[1] == 0 then 0 else |FileCuts(data)| - 1;
    seq(n, j => if j % 2 == 0 then LOAD_BYTES else ZERO_BYTES)
  }

  function FileTypes(f: File): seq<seq<byte>> {
    if f.Elf? then ElfTypes(f.elf.phdrs, |f.elf.phdrs|) else BinaryTypes(f.data)
  }

  /** The packets for the first k files, by their types. */
  function FilesTypes(files: seq<File>, k: nat): seq<seq<byte>>
    requires k <= |files|
  {
    if k == 0 then [] else FilesTypes(files, k - 1) + FileTypes(files[k - 1])
  }

  lemma SegmentTypesOf(ph: Phdr, d: seq<byte>, beef: bool)
    ensures TypesOf(SegmentRequests(ph, d, beef)) == SegmentTypes(ph)
  {
    assert ZeroSize(ph) == 0 <==> ph.memsz == ph.filesz;
  }

  lemma {:induction false} ElfTypesOf(phdrs: seq<Phdr>, c: seq<seq<byte>>, k: nat, beef: bool)
    requires k <= |phdrs| && k <= |c|
    ensures TypesOf(ElfScript(phdrs, c, k, beef)) == ElfTypes(phdrs, k)
  {
    if k > 0 {
      ElfTypesOf(phdrs, c, k - 1, beef);
      SegmentTypesOf(phdrs[k - 1], c[k - 1], beef);
      TypesJoined(ElfScript(phdrs, c, k - 1, beef), SegmentRequests(phdrs[k - 1], c[k - 1], beef));
    }
  }

  lemma BinaryTypesOf(data: seq<byte>, e: u32, beef: bool)
    requires |data| < 0x8000_0000
    ensures TypesOf(BinaryScript(data, e, beef)) == BinaryTypes(data)
  {
    if FileCuts(data)[1] > 0 { PartsSent(e, data, beef); }
  }

  lemma FileTypesOf(f: File, c: seq<seq<byte>>, e: u32, beef: bool, t: seq<Request>)
    requires FileOk(f) && ContentsOf(f, c) && t == FileScript(f, c, e, beef)
    ensures TypesOf(t) == FileTypes(f)
  {
    match f
    case Elf(elf) => ElfTypesOf(elf.phdrs, c, |elf.phdrs|, beef);
    case Binary(data) => BinaryTypesOf(data, e, beef);
  }

  lemma MoreTypes(files: seq<File>, cs: seq<seq<seq<byte>>>, k: nat, e: u32, beef: bool, s0: seq<Request>)
      returns (s: seq<Request>)
    requires FilesOk(files) && AllContents(files, cs) && 0 < k <= |cs|
    requires Asked(files, cs, e, beef, k - 1, s0) && TypesOf(s0) == FilesTypes(files, k - 1)
    ensures Asked(files, cs, e, beef, k, s) && TypesOf(s) == FilesTypes(files, k)
  {
    var a := LoadAddress(files, k - 1, e);
    var s1, f, c, t := ScriptNext(files, cs, k, e, beef, a);
    FileTypesOf(f, c, a, beef, t);
    TypesJoined(s0, t);
    s := s0 + t;
  }

  lemma NoTypes(files: seq<File>, cs: seq<seq<seq<byte>>>, e: u32, beef: bool) returns (s: seq<Request>)
    requires FilesOk(files) && AllContents(files, cs)
    ensures Asked(files, cs, e, beef, 0, s) && TypesOf(s) == FilesTypes(files, 0)
  {
    s := [];
  }

  lemma {:induction false} FilesTypesOf(files: seq<File>, cs: seq<seq<seq<byte>>>, k: nat, e: u32, beef: bool)
      returns (s: seq<Request>)
    requires FilesOk(files) && AllContents(files, cs) && k <= |cs|
    ensures Asked(files, cs, e, beef, k, s) && TypesOf(s) == FilesTypes(files, k)
    decreases k
  {
    if k == 0 {
      s := NoTypes(files, cs, e, beef);
    } else {
      s := FilesTypesOf(files, cs, k - 1, e, beef);
      s := MoreTypes(files, cs, k, e, beef, s);
    }
  }

  /** The type of what follows the data: of EXEC after LactExec, of REBOOT after LactReboot, and none otherwise. */
  function ActionTypes(action: LoaderAction): seq<seq<byte>> {
    if action == LactExec then [EXEC_BYTES] else if action == LactReboot then [REBOOT_BYTES] else []
  }

  lemma ScriptTypes(s: seq<Request>, action: LoaderAction, last: seq<Request>, start: u32, noWatchdog: bool)
    requires last == if action == LactExec then [Exec(start, noWatchdog)]
                     else if action == LactReboot then [Reboot]
                     else []
    ensures TypesOf([Ping] + s + last) == [PING_BYTES] + TypesOf(s) + ActionTypes(action)
  {
    TypesJoined([Ping] + s, last);
    TypesJoined([Ping], s);
    assert TypesOf([Ping]) == [PING_BYTES];
    assert TypesOf(last) == ActionTypes(action);
  }

  /**
   What the Pi takes from the line in such a session: a PING, then the LOADs and ZEROs of every file in order, and then
   the one packet that the action asks for. So nothing is sent twice, and nothing is started or rebooted that was not
   to be.
   */
  lemma SessionStream(area: Area, files: seq<File>, cs: seq<seq<seq<byte>>>, ds: seq<seq<byte>>, e: u32, beef: bool,
                      action: LoaderAction, entry: u32, noWatchdog: bool, mem: Memory, c: Session.Config,
                      acts: seq<Session.Action>)
    requires 4096 <= area.runAddr < area.runEnd
    requires FilesOk(files) && AllContents(files, cs) && |cs| == |files| && Stored(files, ds, beef)
    requires AllLoadable(files) && FilesClear(area, files, ds, e)
    requires var script := SessionScript(files, cs, e, beef, action, entry, noWatchdog);
      AllSendable(script) && c == CleanConfig(area, script, mem)
    requires Session.WellFormed(c) && Session.Valid(c, Session.Init(c), acts)
    requires Session.Stuck(c, Session.After(c, Session.Init(c), acts))
    ensures TypesTaken(area, mem, Session.Sent(c, Session.Init(c), acts), [])
         == [PING_BYTES] + FilesTypes(files, |files|) +
            (if action == LactExec then [EXEC_BYTES] else if action == LactReboot then [REBOOT_BYTES] else [])
  {
    var s, last := SessionRequests(area, files, cs, ds, e, beef, action, entry, noWatchdog);
    DataSession(c, s, last, acts);
    StreamOf(c, acts);
    AnsweredScript(area, s, last, c.script);
    TypesAnswered(area, mem, c.script);
    ScriptTypes(s, action, last, StartOf(files, entry), noWatchdog);
    var s1 := FilesTypesOf(files, cs, |files|, e, beef);
  }
}
