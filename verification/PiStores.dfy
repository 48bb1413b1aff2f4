/** What the command loop leaves in memory, byte by byte, and when it leaves memory as it was. */
module PiStores {
  import opened Wrappers
  import opened Bytes
  import opened Memory
  import opened Protocol
  import opened Pi

  /** Some memory or other: which packets the loop takes from a stream does not depend on it. */
  ghost function Blank(): Memory {
    seq(SPACE, _ => 0)
  }

  /** d is stored from a on. */
  datatype Store = Store(a: u32, d: seq<byte>)

  /** What a packet stores: the data of an accepted LOAD, as far as it comes, or the fill of an accepted ZERO. */
  function StoreOf(area: Area, h: Header, rest: seq<byte>): (s: Store)
    ensures |s.d| < SPACE
  {
    if !Accepts(area, h.address, h.size) then Store(h.address, [])
    else if h.pType == BPT_LOAD then Store(h.address, rest[..Least(h.size, |rest|)])
    else if h.pType == BPT_ZERO then Store(h.address, Fill(FillPattern(h.flags & BPF_BEEF != 0), h.size))
    else Store(h.address, [])
  }

  function FirstStore(area: Area, rx: seq<byte>): (s: Store)
    ensures |s.d| < SPACE
  {
    if |rx| < HEADER_SIZE then Store(0, [])
    else StoreOf(area, DecodeHeader(rx[..HEADER_SIZE]), rx[HEADER_SIZE..])
  }

  ghost function TurnMemory(t: Turn): Memory {
    match t
    case Last(s) => s.mem
    case More(mem', _, _, _) => mem'
  }

  lemma PacketStores(area: Area, mem: Memory, h: Header, rest: seq<byte>)
    ensures var s, n := StoreOf(area, h, rest), PayloadSize(area, h);
      Write(mem, s.a, s.d) == if |rest| < n then Write(mem, h.address, rest) else MemoryAfter(area, h, mem, rest[..n])
  {
    WriteNothing(mem, h.address);
    assert rest[..|rest|] == rest;
  }

  lemma TurnStores(area: Area, mem: Memory, rx: seq<byte>, arrivals: seq<nat>)
    ensures TurnMemory(OneTurn(area, mem, rx, arrivals)) == Write(mem, FirstStore(area, rx).a, FirstStore(area, rx).d)
  {
    if |rx| < HEADER_SIZE {
      WriteNothing(mem, 0);
    } else {
      PacketStores(area, mem, DecodeHeader(rx[..HEADER_SIZE]), rx[HEADER_SIZE..]);
    }
  }

  /** Memory decides nothing about how the loop goes on. */
  lemma TurnGoesOn(area: Area, mem: Memory, rx: seq<byte>, arrivals: seq<nat>)
    ensures var t, u := OneTurn(area, mem, rx, arrivals), OneTurn(area, Blank(), rx, arrivals);
      (t.More? <==> u.More?) && (t.More? ==> t.rx == u.rx && t.arrivals == u.arrivals)
  {
  }

  /** The last byte that the packets of the stream store at address x, if they store any. */
  ghost function StoredAt(area: Area, rx: seq<byte>, arrivals: seq<nat>, x: int): Option<byte>
    decreases |rx|
  {
    match OneTurn(area, Blank(), rx, arrivals)
    case Last(_) => StoredByFirst(area, rx, x)
    case More(_, _, rx', arrivals') => Latest(StoredAt(area, rx', arrivals', x), StoredByFirst(area, rx, x))
  }

  function Latest<T>(later: Option<T>, earlier: Option<T>): Option<T> {
    if later.Some? then later else earlier
  }

  function ByteOr(b: Option<byte>, before: byte): byte {
    if b.Some? then b.value else before
  }

  ghost function StoredByFirst(area: Area, rx: seq<byte>, x: int): Option<byte> {
    var s := FirstStore(area, rx);
    if (x - s.a) % SPACE < |s.d| then Some(s.d[(x - s.a) % SPACE]) else None
  }

  lemma TurnByte(area: Area, mem: Memory, rx: seq<byte>, arrivals: seq<nat>, x: int)
    requires 0 <= x < SPACE
    ensures TurnMemory(OneTurn(area, mem, rx, arrivals))[x]
         == ByteOr(StoredByFirst(area, rx, x), mem[x])
  {
    var s := FirstStore(area, rx);
    TurnStores(area, mem, rx, arrivals);
    WriteAt(mem, s.a, s.d, x);
  }

  /** Every byte of memory is the last one stored there, or the one that was there before. */
  lemma {:induction false} ServeByte(area: Area, mem: Memory, rx: seq<byte>, arrivals: seq<nat>, x: int)
    requires 0 <= x < SPACE
    ensures Serve(area, mem, rx, arrivals).mem[x]
         == ByteOr(StoredAt(area, rx, arrivals, x), mem[x])
    decreases |rx|
  {
    var t := OneTurn(area, mem, rx, arrivals);
    TurnByte(area, mem, rx, arrivals, x);
    TurnGoesOn(area, mem, rx, arrivals);
    if t.More? {
      ServeMore(area, mem, rx, arrivals, t);
      ServeByte(area, t.mem, t.rx, t.arrivals, x);
    }
  }

  /** No packet that the loop takes is an accepted LOAD that stores a byte or an accepted ZERO of some size. */
  ghost predicate StoresNothing(area: Area, rx: seq<byte>, arrivals: seq<nat>)
    decreases |rx|
  {
    FirstStore(area, rx).d == [] &&
    match OneTurn(area, Blank(), rx, arrivals)
    case Last(_) => true
    case More(_, _, rx', arrivals') => StoresNothing(area, rx', arrivals')
  }

  lemma {:induction false} NothingStored(area: Area, rx: seq<byte>, arrivals: seq<nat>, x: int)
    requires StoresNothing(area, rx, arrivals)
    ensures StoredAt(area, rx, arrivals, x) == None
    decreases |rx|
  {
    var t := OneTurn(area, Blank(), rx, arrivals);
    if t.More? { NothingStored(area, t.rx, t.arrivals, x); }
  }

  lemma FirstStoredAt(area: Area, rx: seq<byte>, arrivals: seq<nat>)
    requires FirstStore(area, rx).d != []
    ensures StoredAt(area, rx, arrivals, FirstStore(area, rx).a).Some?
  {
    var s := FirstStore(area, rx);
    assert (s.a - s.a) % SPACE == 0;
    assert StoredByFirst(area, rx, s.a).Some?;
  }

  lemma {:induction false} SomethingStored(area: Area, rx: seq<byte>, arrivals: seq<nat>) returns (x: u32)
    requires !StoresNothing(area, rx, arrivals)
    ensures StoredAt(area, rx, arrivals, x).Some?
    decreases |rx|
  {
    var t := OneTurn(area, Blank(), rx, arrivals);
    if FirstStore(area, rx).d != [] {
      x := FirstStore(area, rx).a;
      FirstStoredAt(area, rx, arrivals);
    } else {
      x := SomethingStored(area, t.rx, t.arrivals);
    }
  }

  /** A byte that is not b. */
  function Other(b: byte): (c: byte)
    ensures c != b
  {
    if b == 0 then 1 else 0
  }

  /** The loop leaves every memory as it was if and only if nothing that it takes from the stream stores a byte. */
  lemma MemoryKeptExactly(area: Area, rx: seq<byte>, arrivals: seq<nat>)
    ensures (forall mem: Memory :: Serve(area, mem, rx, arrivals).mem == mem) <==> StoresNothing(area, rx, arrivals)
  {
    if StoresNothing(area, rx, arrivals) {
      forall mem: Memory ensures Serve(area, mem, rx, arrivals).mem == mem {
        forall x | 0 <= x < SPACE ensures Serve(area, mem, rx, arrivals).mem[x] == mem[x] {
          NothingStored(area, rx, arrivals, x);
          ServeByte(area, mem, rx, arrivals, x);
        }
      }
    } else {
      var x := SomethingStored(area, rx, arrivals);
      var mem: Memory := seq(SPACE, _ => Other(StoredAt(area, rx, arrivals, x).value));
      ServeByte(area, mem, rx, arrivals, x);
      assert Serve(area, mem, rx, arrivals).mem != mem;
    }
  }
}
