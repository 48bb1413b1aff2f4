/** The session of the PC: a ping, every file by its format, and the final action (client/bootpc.c). */
module Bootpc {
  import opened Bytes
  import opened Memory
  import opened Protocol
  import opened Bootproto
  import opened BinaryLoad
  import opened ElfLoad

  datatype File = Elf(elf: ElfFile) | Binary(data: seq<byte>)

  datatype LoaderAction = LactNone | LactExec | LactUsage | LactReboot

  /** Sizes that the Pi can count. */
  predicate FileOk(f: File) {
    match f
    case Elf(elf) => SmallSegments(elf.phdrs)
    case Binary(data) => |data| < 0x8000_0000
  }

  predicate FilesOk(files: seq<File>) {
    forall j {:trigger FileOk(files[j])} | 0 <= j < |files| :: FileOk(files[j])
  }

  /** Contents read for the segments of a file. */
  predicate ContentsOf(f: File, c: seq<seq<byte>>) {
    f.Elf? ==> Contents(f.elf, c) && |c| == |f.elf.phdrs|
  }

  predicate AllContents(files: seq<File>, cs: seq<seq<seq<byte>>>) {
    |cs| <= |files| && forall j {:trigger ContentsOf(files[j], cs[j])} | 0 <= j < |cs| :: ContentsOf(files[j], cs[j])
  }

  function FileScript(f: File, c: seq<seq<byte>>, e: u32, beef: bool): seq<Request>
    requires FileOk(f) && ContentsOf(f, c)
  {
    match f
    case Elf(elf) => ElfScript(elf.phdrs, c, |elf.phdrs|, beef)
    case Binary(data) => BinaryScript(data, e, beef)
  }

  function LoadAfter(f: File, e: u32): u32 {
    match f
    case Elf(_) => e
    case Binary(data) => NextLoad(e, data)
  }

  /** Where the next binary file goes after the first k files. */
  function LoadAddress(files: seq<File>, k: nat, e: u32): u32
    requires k <= |files|
  {
    if k == 0 then e else LoadAfter(files[k - 1], LoadAddress(files, k - 1, e))
  }

  function EntryAfter(f: File, entry: u32): u32 {
    if f.Elf? then f.elf.entry else entry
  }

  /** Where execution starts after the first k files: at the entry point of the last ELF file, if any. */
  function EntryPoint(files: seq<File>, k: nat, entry: u32): u32
    requires k <= |files|
  {
    if k == 0 then entry else EntryAfter(files[k - 1], EntryPoint(files, k - 1, entry))
  }

  /** The requests for the first k files. */
  function FilesScript(files: seq<File>, cs: seq<seq<seq<byte>>>, k: nat, e: u32, beef: bool): seq<Request>
    requires FilesOk(files) && AllContents(files, cs) && k <= |cs|
  {
    if k == 0 then []
    else FilesScript(files, cs, k - 1, e, beef) +
         FileScript(files[k - 1], cs[k - 1], LoadAddress(files, k - 1, e), beef)
  }

  function FinalScript(action: LoaderAction, entry: u32, noWatchdog: bool): seq<Request> {
    match action
    case LactExec => [Exec(entry, noWatchdog)]
    case LactReboot => [Reboot]
    case _ => []
  }

  lemma {:induction false} FilesPrefix(files: seq<File>, cs: seq<seq<seq<byte>>>, ds: seq<seq<seq<byte>>>, k: nat,
                                       e: u32, beef: bool)
    requires FilesOk(files) && AllContents(files, cs) && AllContents(files, ds)
    requires k <= |cs| && k <= |ds| && cs[..k] == ds[..k]
    ensures FilesScript(files, cs, k, e, beef) == FilesScript(files, ds, k, e, beef)
  {
    if k > 0 {
      assert cs[k - 1] == cs[..k][k - 1] && ds[k - 1] == ds[..k][k - 1];
      assert cs[..k - 1] == cs[..k][..k - 1] && ds[..k - 1] == ds[..k][..k - 1];
      FilesPrefix(files, cs, ds, k - 1, e, beef);
      FilesLast(files, cs, ds, k, e, beef, FilesScript(files, cs, k - 1, e, beef));
    }
  }

  lemma FilesLast(files: seq<File>, cs: seq<seq<seq<byte>>>, ds: seq<seq<seq<byte>>>, k: nat, e: u32, beef: bool,
                  s: seq<Request>)
    requires FilesOk(files) && AllContents(files, cs) && AllContents(files, ds)
    requires 0 < k <= |cs| && k <= |ds| && cs[k - 1] == ds[k - 1]
    requires s == FilesScript(files, cs, k - 1, e, beef) == FilesScript(files, ds, k - 1, e, beef)
    ensures FilesScript(files, cs, k, e, beef) == FilesScript(files, ds, k, e, beef)
  {
  }

  lemma FilesNext(files: seq<File>, cs: seq<seq<seq<byte>>>, c: seq<seq<byte>>, k: nat, e: u32, beef: bool)
    requires FilesOk(files) && AllContents(files, cs) && |cs| == k < |files| && ContentsOf(files[k], c)
    ensures AllContents(files, cs + [c])
    ensures FilesScript(files, cs + [c], k + 1, e, beef)
         == FilesScript(files, cs, k, e, beef) + FileScript(files[k], c, LoadAddress(files, k, e), beef)
  {
    assert (cs + [c])[k] == c && AllContents(files, cs + [c]);
    assert (cs + [c])[..k] == cs[..k];
    FilesPrefix(files, cs, cs + [c], k, e, beef);
  }

  /** One more file, after those of which cs holds the contents. */
  lemma NextFile(x: Exchanged, y: Exchanged, files: seq<File>, cs: seq<seq<seq<byte>>>, c: seq<seq<byte>>, k: nat,
                 e: u32, beef: bool)
      returns (cs': seq<seq<seq<byte>>>)
    requires FilesOk(files) && AllContents(files, cs) && |cs| == k < |files| && ContentsOf(files[k], c)
    requires y == Continue(Continue(x, FilesScript(files, cs, k, e, beef)),
                           FileScript(files[k], c, LoadAddress(files, k, e), beef))
    ensures AllContents(files, cs') && |cs'| == k + 1
    ensures y == Continue(x, FilesScript(files, cs', k + 1, e, beef))
  {
    cs' := cs + [c];
    FilesNext(files, cs, c, k, e, beef);
    ContinueConcat(x, FilesScript(files, cs, k, e, beef), FileScript(files[k], c, LoadAddress(files, k, e), beef));
  }

  /** Loads one file; the load address or the entry point is carried on to the next. */
  method LoadFile(client: Client, f: File, entry: u32) returns (ok: bool, entry': u32, ghost c: seq<seq<byte>>)
    requires client.Valid() && FileOk(f)
    modifies client`tx, client`log, client`rx, client`eLoad
    ensures client.Valid() && ContentsOf(f, c)
    ensures Exchanged(client.log, ok, client.rx)
         == Continue(Exchanged(old(client.log), true, old(client.rx)),
                     FileScript(f, c, old(client.eLoad), client.beefBss))
    ensures ok ==> client.eLoad == LoadAfter(f, old(client.eLoad)) && entry' == EntryAfter(f, entry)
  {
    entry', c := entry, [];
    match f {
      case Elf(elf) => ok, entry', c := LoadElf(client, elf);
      case Binary(data) => ok := LoadBinary(client, data);
    }
  }

  /** The files in the order given. */
  method LoadFiles(client: Client, files: seq<File>, entry: u32)
      returns (ok: bool, entry': u32, ghost cs: seq<seq<seq<byte>>>)
    requires client.Valid() && FilesOk(files)
    modifies client`tx, client`log, client`rx, client`eLoad
    ensures client.Valid() && AllContents(files, cs) && (ok ==> |cs| == |files|)
    ensures Exchanged(client.log, ok, client.rx)
         == Continue(Exchanged(old(client.log), true, old(client.rx)),
                     FilesScript(files, cs, |cs|, old(client.eLoad), client.beefBss))
    ensures ok ==> client.eLoad == LoadAddress(files, |files|, old(client.eLoad)) &&
                   entry' == EntryPoint(files, |files|, entry)
  {
    entry', cs := entry, [];
    ghost var x, e, beef := Exchanged(client.log, true, client.rx), client.eLoad, client.beefBss;
    assert x.sent + [] == x.sent;
    for optind := 0 to |files|
      invariant client.Valid() && |cs| == optind && AllContents(files, cs)
      invariant client.eLoad == LoadAddress(files, optind, e) && entry' == EntryPoint(files, optind, entry)
      invariant Exchanged(client.log, true, client.rx) == Continue(x, FilesScript(files, cs, optind, e, beef))
    {
      ghost var c;
      assert FileOk(files[optind]);
      ok, entry', c := LoadFile(client, files[optind], entry');
      cs := NextFile(x, Exchanged(client.log, ok, client.rx), files, cs, c, optind, e, beef);
      if !ok { return; }
    }
    ok := true;
  }

  method FinalAction(client: Client, action: LoaderAction, entry: u32) returns (ok: bool)
    requires client.Valid()
    modifies client`tx, client`log, client`rx
    ensures client.Valid()
    ensures Exchanged(client.log, ok, client.rx)
         == Continue(Exchanged(old(client.log), true, old(client.rx)), FinalScript(action, entry, client.noWatchdog))
  {
    ghost var x := Exchanged(client.log, true, client.rx);
    assert x.sent + [] == x.sent;
    match action {
      case LactExec =>
        ContinueOne(x, Exec(entry, client.noWatchdog));
        ok := client.ExecProgram(entry);
      case LactReboot =>
        ContinueOne(x, Reboot);
        ok := client.RebootPi();
      case _ => ok := true;
    }
  }

  /** All requests of a session that reaches the files of which cs holds the contents. */
  function SessionScript(files: seq<File>, cs: seq<seq<seq<byte>>>, e: u32, beef: bool, action: LoaderAction,
                         entry: u32, noWatchdog: bool): seq<Request>
    requires FilesOk(files) && AllContents(files, cs)
  {
    [Ping] + FilesScript(files, cs, |cs|, e, beef) + FinalScript(action, EntryPoint(files, |cs|, entry), noWatchdog)
  }

  /**
   The whole session. When it fails, what follows the failed request is not written, so it may be
   described by the script up to the file in which it failed.
   */
  method Session(client: Client, files: seq<File>, entry: u32, action: LoaderAction)
      returns (ok: bool, ghost cs: seq<seq<seq<byte>>>)
    requires client.Valid() && FilesOk(files)
    modifies client`tx, client`log, client`rx, client`eLoad
    ensures client.Valid() && AllContents(files, cs) && (ok ==> |cs| == |files|)
    ensures Exchanged(client.log, ok, client.rx)
         == Continue(Exchanged(old(client.log), true, old(client.rx)),
                     SessionScript(files, cs, old(client.eLoad), client.beefBss, action, entry, client.noWatchdog))
  {
    cs := [];
    ghost var x, e, beef := Exchanged(client.log, true, client.rx), client.eLoad, client.beefBss;
    ContinueOne(x, Ping);
    ok := client.Ping();
    ghost var y := Exchanged(client.log, ok, client.rx);
    if ok {
      var entry';
      ok, entry', cs := LoadFiles(client, files, entry);
      ghost var z := Exchanged(client.log, ok, client.rx);
      if ok {
        ok := FinalAction(client, action, entry');
      }
    }
    ghost var s := FilesScript(files, cs, |cs|, e, beef);
    ghost var t := FinalScript(action, EntryPoint(files, |cs|, entry), client.noWatchdog);
    ContinueConcat(x, [Ping], s);
    ContinueConcat(x, [Ping] + s, t);
  }
}
