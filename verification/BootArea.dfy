/** What the target check of the bootloader protects (raspi/bootrpi.c, lines 45-57), and for how long. */
module BootArea {
  import opened Bytes
  import opened Memory
  import opened Protocol
  import opened Pi

  /** The linker leaves room for the stack page below a program that is not empty. */
  ghost predicate Placed(area: Area) {
    4096 <= area.runAddr < area.runEnd
  }

  /** x is one of the n addresses from addr on, which may wrap around. */
  ghost predicate Among(x: int, addr: u32, n: int) {
    (x - addr) % SPACE < n
  }

  /** The addresses begin below the area and reach its end, or begin behind it and do so after wrapping around. */
  ghost predicate Covers(area: Area, addr: u32, n: u32) {
    (addr < area.runAddr - 4096 && area.runEnd <= addr + n) ||
    (area.runEnd <= addr && SPACE + area.runEnd <= addr + n)
  }

  /** The addresses end below the area, or begin behind it and do not come back to it. */
  ghost predicate Clear(area: Area, addr: u32, n: int) {
    addr + n < area.runAddr - 4096 || (area.runEnd <= addr && addr + n < SPACE + area.runAddr - 4096)
  }

  lemma AreaStart(area: Area)
    requires Placed(area)
    ensures area.Start() == area.runAddr - 4096
  {
  }

  lemma EndWrapped(addr: u32, n: u32)
    ensures Moved(addr, n) == if addr + n < SPACE then addr + n else addr + n - SPACE
  {
  }

  lemma OffsetOf(x: u32, addr: u32)
    ensures (x - addr) % SPACE == if addr <= x then x - addr else x - addr + SPACE
  {
  }

  /**
   Which ranges pass the check: those that end below the stack page, those that begin behind the program and do not
   come back to it, and those that cover both. One that ends exactly where the stack page begins is not among them.
   */
  lemma AcceptsExactly(area: Area, addr: u32, n: u32)
    requires 4096 <= area.runAddr < area.runEnd
    ensures Accepts(area, addr, n) <==>
      addr + n < area.runAddr - 4096 ||
      (area.runEnd <= addr && addr + n < 0x1_0000_0000 + area.runAddr - 4096) ||
      (addr < area.runAddr - 4096 && area.runEnd <= addr + n) ||
      (area.runEnd <= addr && 0x1_0000_0000 + area.runEnd <= addr + n)
  {
    AreaStart(area);
    EndWrapped(addr, n);
  }

  lemma AcceptsClear(area: Area, addr: u32, n: u32)
    requires Placed(area)
    ensures Accepts(area, addr, n) <==> Clear(area, addr, n) || Covers(area, addr, n)
  {
    AcceptsExactly(area, addr, n);
  }

  /** Neither end of an accepted range lies in the program or its stack page. */
  lemma EndsRefused(area: Area, addr: u32, n: u32)
    requires 4096 <= area.runAddr < area.runEnd
    ensures Accepts(area, addr, n) <==>
      !(area.runAddr - 4096 <= addr < area.runEnd) &&
      !(area.runAddr - 4096 <= (addr + n) % 0x1_0000_0000 < area.runEnd)
  {
    AreaStart(area);
  }

  /** An accepted range can still meet the program or its stack page, but only by covering both. */
  lemma AcceptedMeets(area: Area, addr: u32, n: u32)
    requires 4096 <= area.runAddr < area.runEnd && Accepts(area, addr, n)
    ensures (exists x {:trigger Among(x, addr, n)} :: area.runAddr - 4096 <= x < area.runEnd && Among(x, addr, n))
      <==> Covers(area, addr, n)
  {
    AcceptsClear(area, addr, n);
    if Covers(area, addr, n) {
      OffsetOf(area.runAddr - 4096, addr);
      assert Among(area.runAddr - 4096, addr, n);
    } else {
      forall x | area.runAddr - 4096 <= x < area.runEnd ensures !Among(x, addr, n) { OffsetOf(x, addr); }
    }
  }

  /** A range, wrapping around or not, that does not span the whole area. */
  ghost predicate Bounded(area: Area, h: Header) {
    (h.pType == BPT_LOAD || h.pType == BPT_ZERO) ==> !Covers(area, h.address, h.size)
  }

  /** In particular, a range no larger than the program and its stack page. */
  lemma SmallIsBounded(area: Area, h: Header)
    requires 4096 <= area.runAddr < area.runEnd && h.size <= area.runEnd - area.runAddr + 4096
    ensures Bounded(area, h)
  {
  }

  /** The program and its stack page are the same in both memories. */
  ghost predicate SameArea(area: Area, m: Memory, w: Memory)
    requires Placed(area)
  {
    forall x | area.runAddr - 4096 <= x < area.runEnd :: w[x] == m[x]
  }

  lemma WriteMisses(area: Area, m: Memory, h: Header, d: seq<byte>)
    requires Placed(area) && Bounded(area, h) && |d| <= h.size
    requires h.pType == BPT_LOAD || h.pType == BPT_ZERO
    requires Accepts(area, h.address, h.size)
    ensures SameArea(area, m, Write(m, h.address, d))
  {
    AcceptedMeets(area, h.address, h.size);
    forall x | area.runAddr - 4096 <= x < area.runEnd ensures Write(m, h.address, d)[x] == m[x] {
      assert !Among(x, h.address, h.size);
      WriteAt(m, h.address, d, x);
    }
  }

  /** Every packet that the command loop takes from the bytes rx has a bounded range. */
  ghost predicate AllBounded(area: Area, mem: Memory, rx: seq<byte>, arrivals: seq<nat>)
    decreases |rx|
  {
    |rx| < HEADER_SIZE ||
    (Bounded(area, DecodeHeader(rx[..HEADER_SIZE])) &&
     match OneTurn(area, mem, rx, arrivals)
     case Last(_) => true
     case More(mem', _, rx', arrivals') => AllBounded(area, mem', rx', arrivals'))
  }

  ghost function MemAfter(t: Turn): Memory {
    match t
    case Last(s) => s.mem
    case More(mem', _, _, _) => mem'
  }

  lemma TurnKeepsArea(area: Area, mem: Memory, rx: seq<byte>, arrivals: seq<nat>)
    requires Placed(area) && (|rx| >= HEADER_SIZE ==> Bounded(area, DecodeHeader(rx[..HEADER_SIZE])))
    ensures SameArea(area, mem, MemAfter(OneTurn(area, mem, rx, arrivals)))
  {
    if |rx| >= HEADER_SIZE {
      var h, rest := DecodeHeader(rx[..HEADER_SIZE]), rx[HEADER_SIZE..];
      var n := PayloadSize(area, h);
      if |rest| < n {
        WriteMisses(area, mem, h, rest);
      } else if h.pType == BPT_LOAD && Accepts(area, h.address, h.size) {
        WriteMisses(area, mem, h, rest[..n]);
      } else if h.pType == BPT_ZERO && Accepts(area, h.address, h.size) {
        WriteMisses(area, mem, h, Fill(FillPattern(h.flags & BPF_BEEF != 0), h.size));
      }
    }
  }

  /**
   Whatever the PC sends, well-formed or not, as long as no range covers the program and its stack page, the
   command loop leaves every byte of both as it was.
   */
  lemma {:induction false} AreaKept(area: Area, mem: Memory, rx: seq<byte>, arrivals: seq<nat>)
    requires 4096 <= area.runAddr < area.runEnd && AllBounded(area, mem, rx, arrivals)
    ensures forall x | area.runAddr - 4096 <= x < area.runEnd :: Serve(area, mem, rx, arrivals).mem[x] == mem[x]
    decreases |rx|
  {
    TurnKeepsArea(area, mem, rx, arrivals);
    var t := OneTurn(area, mem, rx, arrivals);
    if t.More? {
      AreaKept(area, t.mem, t.rx, t.arrivals);
      ServeMore(area, mem, rx, arrivals, t);
    }
  }

  /** Inside a clear range everything is accepted. */
  lemma ClearAccepts(area: Area, addr: u32, n: nat, off: nat, m: u32)
    requires Placed(area) && Clear(area, addr, n) && off + m <= n
    ensures Accepts(area, Moved(addr, off), m)
  {
    var a := Moved(addr, off);
    ClearShort(area, addr, n);
    EndWrapped(addr, off);
    AcceptsClear(area, a, m);
  }

  lemma ClearShort(area: Area, addr: u32, n: nat)
    requires Placed(area) && Clear(area, addr, n)
    ensures n < SPACE
  {
  }
}
