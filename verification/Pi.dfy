/** The bootloader on the Pi (raspi/bootrpi.c, raspi/minilibc.c), working on its memory in place. */
module Pi {
  import opened Bytes
  import opened Memory
  import opened Protocol
  import Crc32

  /**
   How the command loop ends: with so much of a header, waiting for the rest; with so many bytes of the data
   that hdr announces, waiting for the rest; or with a program started.
   */
  datatype Outcome =
    | InHeader(got: seq<byte>)
    | InData(hdr: Header, received: nat)
    | Started(address: u32, watchdog: bool)

  datatype Service = Service(mem: Memory, tx: seq<byte>, outcome: Outcome)

  function Least(a: nat, b: nat): nat {
    if a < b then a else b
  }

  /** One turn of the command loop: it may be the last, or leave bytes for the next. */
  datatype Turn =
    | Last(service: Service)
    | More(mem: Memory, reply: seq<byte>, rx: seq<byte>, arrivals: seq<nat>)

  /**
   What one turn makes of the bytes rx: one packet, answered in full. When the packet is unknown,
   arrivals tells how many of the bytes behind it have arrived by the time the line is drained.
   */
  function OneTurn(area: Area, mem: Memory, rx: seq<byte>, arrivals: seq<nat>): (t: Turn)
    ensures t.More? ==> |t.rx| < |rx|
  {
    if |rx| < HEADER_SIZE then Last(Service(mem, [], InHeader(rx)))
    else
      var h := DecodeHeader(rx[..HEADER_SIZE]);
      var rest := rx[HEADER_SIZE..];
      var n := PayloadSize(area, h);
      if |rest| < n then Last(Service(Write(mem, h.address, rest), [], InData(h, |rest|)))
      else
        var mem' := MemoryAfter(area, h, mem, rest[..n]);
        var reply := EncodeResponse(Answer(area, h, rest[..n]));
        if h.pType == BPT_EXEC then Last(Service(mem', reply, Started(h.address, h.flags & BPF_NOWD == 0)))
        else if IsKnown(h.pType) || arrivals == [] then More(mem', reply, rest[n..], arrivals)
        else More(mem', reply, rest[Least(arrivals[0], |rest|)..], arrivals[1..])
  }

  /** What the command loop makes of the bytes rx, packet after packet. */
  function Serve(area: Area, mem: Memory, rx: seq<byte>, arrivals: seq<nat>): Service
    decreases |rx|
  {
    match OneTurn(area, mem, rx, arrivals)
    case Last(service) => service
    case More(mem', reply, rx', arrivals') => Prepend(reply, Serve(area, mem', rx', arrivals'))
  }

  function Prepend(reply: seq<byte>, s: Service): Service {
    s.(tx := reply + s.tx)
  }

  lemma PrependTwice(sent: seq<byte>, reply: seq<byte>, s: Service)
    ensures Prepend(sent, Prepend(reply, s)) == Prepend(sent + reply, s)
  {
    assert sent + (reply + s.tx) == (sent + reply) + s.tx;
  }

  lemma PrependNothing(s: Service)
    ensures Prepend([], s) == s
  {
    assert [] + s.tx == s.tx;
  }

  lemma ServeMore(area: Area, mem: Memory, rx: seq<byte>, arrivals: seq<nat>, t: Turn)
    requires t == OneTurn(area, mem, rx, arrivals) && t.More?
    ensures Serve(area, mem, rx, arrivals) == Prepend(t.reply, Serve(area, t.mem, t.rx, t.arrivals))
  {
  }

  lemma FillWord(m: Memory, ptr: u32, value: bv32, words: nat)
    requires 4 * words + 4 < SPACE
    ensures Write(Write(m, ptr, Fill(value, 4 * words)), Moved(ptr, 4 * words), LE32(value))
         == Write(m, ptr, Fill(value, 4 * words + 4))
  {
    var done := 4 * words;
    WriteWrapped(Write(m, ptr, Fill(value, done)), ptr + done, LE32(value));
    WriteConcat(m, ptr, Fill(value, done), LE32(value));
    assert Fill(value, done + 4) == Fill(value, done) + LE32(value);
  }

  lemma FillByte(m: Memory, ptr: u32, value: bv32, words: nat, k: nat)
    requires k < 4 && 4 * words + k + 1 < SPACE
    ensures Write(m, ptr, Fill(value, 4 * words + k))[Moved(ptr, 4 * words + k) := LE32(value)[k]]
         == Write(m, ptr, Fill(value, 4 * words + k + 1))
  {
    WriteByte(m, ptr, Fill(value, 4 * words + k), LE32(value)[k]);
    assert Fill(value, 4 * words + k + 1) == Fill(value, 4 * words + k) + [LE32(value)[k]];
  }

  lemma NextByteRead(m: Memory, buffer: u32, bytes: seq<byte>, k: nat)
    requires k < |bytes| && k < SPACE
    ensures Write(m, buffer, bytes[..k])[Moved(buffer, k) := bytes[k]] == Write(m, buffer, bytes[..k + 1])
  {
    WriteByte(m, buffer, bytes[..k], bytes[k]);
    assert bytes[..k + 1] == bytes[..k] + [bytes[k]];
  }

  class Bootloader {
    const area: Area
    const mem: array<byte>
    var rx: seq<byte>  // the bytes still to come from the PC
    var tx: seq<byte>  // the bytes sent to the PC

    constructor (area: Area, mem: array<byte>, rx: seq<byte>)
      requires mem.Length == SPACE
      ensures this.area == area && this.mem == mem && this.rx == rx && tx == []
    {
      this.area, this.mem, this.rx, this.tx := area, mem, rx, [];
    }

    /** Reads size bytes into memory, one at a time; waits forever when they do not come. */
    method KRead(buffer: u32, size: u32) returns (blocked: bool, received: nat)
      requires mem.Length == SPACE
      modifies mem, this`rx
      ensures blocked <==> |old(rx)| < size
      ensures received == Least(size, |old(rx)|)
      ensures mem[..] == Write(old(mem[..]), buffer, old(rx)[..received]) && rx == old(rx)[received..]
    {
      ghost var m0, k := mem[..], 0;
      var b, s := buffer, size;
      WriteNothing(m0, buffer);
      while s > 0
        invariant 0 <= s && k == size - s && k <= |old(rx)| && b == Moved(buffer, k)
        invariant rx == old(rx)[k..]
        invariant mem[..] == Write(m0, buffer, old(rx)[..k])
      {
        if rx == [] { return true, size - s; }
        NextByteRead(m0, buffer, old(rx), k);
        MovedTwice(buffer, k, 1);
        StoreByte(b, rx[0]);
        rx := rx[1..];
        b := Moved(b, 1);
        s := s - 1;
        k := k + 1;
      }
      return false, size;
    }

    /** Reads a packet header into a buffer of its own. */
    method KReadHeader() returns (blocked: bool, hdr: Header, got: seq<byte>)
      modifies this`rx
      ensures blocked <==> |old(rx)| < HEADER_SIZE
      ensures blocked ==> rx == [] && got == old(rx)
      ensures !blocked ==> hdr == DecodeHeader(old(rx)[..HEADER_SIZE]) && rx == old(rx)[HEADER_SIZE..]
    {
      var buffer := new byte[HEADER_SIZE];
      var k := 0;
      while k < HEADER_SIZE
        invariant 0 <= k <= HEADER_SIZE && k <= |old(rx)|
        invariant rx == old(rx)[k..] && buffer[..k] == old(rx)[..k]
        invariant fresh(buffer)
      {
        if rx == [] { return true, DecodeHeader(buffer[..]), buffer[..k]; }
        buffer[k] := rx[0];
        rx := rx[1..];
        k := k + 1;
      }
      assert buffer[..] == old(rx)[..HEADER_SIZE];
      return false, DecodeHeader(buffer[..]), buffer[..];
    }

    method KWrite(buffer: seq<byte>)
      modifies this`tx
      ensures tx == old(tx) + buffer
    {
      var k := 0;
      while k < |buffer|
        invariant 0 <= k <= |buffer|
        invariant tx == old(tx) + buffer[..k]
      {
        tx := tx + [buffer[k]];
        k := k + 1;
      }
    }

    /** One aligned or unaligned store of a little-endian word. */
    method StoreWord(p: u32, value: bv32)
      requires mem.Length == SPACE
      modifies mem
      ensures mem[..] == Write(old(mem[..]), p, LE32(value))
    {
      ghost var m0, v := mem[..], LE32(value);
      WriteNothing(m0, p);
      var k := 0;
      while k < 4
        invariant 0 <= k <= 4
        invariant mem[..] == Write(m0, p, v[..k])
      {
        WriteByte(m0, p, v[..k], v[k]);
        assert v[..k + 1] == v[..k] + [v[k]];
        mem[Moved(p, k)] := LE32(value)[k];
        k := k + 1;
      }
      assert v[..4] == v;
    }

    method StoreByte(p: u32, b: byte)
      requires mem.Length == SPACE
      modifies mem
      ensures mem[..] == old(mem[..])[p := b]
    {
      mem[p] := b;
    }

    /** Fills whole words first, then the bytes that remain. */
    method MemSet32(ptr: u32, value: bv32, bytes: u32)
      requires mem.Length == SPACE
      modifies mem
      ensures mem[..] == Write(old(mem[..]), ptr, Fill(value, bytes))
    {
      ghost var m0, words := mem[..], 0;
      WriteNothing(m0, ptr);
      var p: u32, left: int := ptr, bytes;
      while left >= 4
        invariant 0 <= left == bytes - 4 * words && p == Moved(ptr, 4 * words)
        invariant mem[..] == Write(m0, ptr, Fill(value, 4 * words))
      {
        StoreWord(p, value);
        FillWord(m0, ptr, value, words);
        MovedTwice(ptr, 4 * words, 4);
        p := Moved(p, 4);
        left := left - 4;
        words := words + 1;
      }
      var cs := 0;
      while left > 0
        invariant 0 <= cs && 0 <= left && left + cs == bytes - 4 * words < 4 && p == Moved(ptr, 4 * words + cs)
        invariant mem[..] == Write(m0, ptr, Fill(value, 4 * words + cs))
      {
        FillByte(m0, ptr, value, words, cs);
        MovedTwice(ptr, 4 * words + cs, 1);
        StoreByte(p, LE32(value)[cs]);
        p := Moved(p, 1);
        cs := cs + 1;
        left := left - 1;
      }
    }

    method SendResponse(code: bv32, data: bv32)
      modifies this`tx
      ensures tx == old(tx) + EncodeResponse(Response(code, data))
    {
      KWrite(EncodeResponse(Response(code, data)));
    }

    method HandleLoad(hdr: Header) returns (blocked: bool, received: nat)
      requires mem.Length == SPACE && hdr.pType == BPT_LOAD
      modifies mem, this`rx, this`tx
      ensures var n := PayloadSize(area, hdr);
        if |old(rx)| < n then
          blocked && received == |old(rx)| &&
          mem[..] == Write(old(mem[..]), hdr.address, old(rx)) && tx == old(tx)
        else
          !blocked && rx == old(rx)[n..] &&
          mem[..] == MemoryAfter(area, hdr, old(mem[..]), old(rx)[..n]) &&
          tx == old(tx) + EncodeResponse(Answer(area, hdr, old(rx)[..n]))
    {
      if !Accepts(area, hdr.address, hdr.size) {
        SendResponse(BPR_ERR, BPE_OVR);
        return false, 0;
      }
      blocked, received := KRead(hdr.address, hdr.size);
      if blocked { return; }
      ReadWritten(old(mem[..]), hdr.address, old(rx)[..hdr.size]);
      var cCrc := Crc32.Crc32(0, Read(mem[..], hdr.address, hdr.size));
      if cCrc == hdr.crc32 {
        SendResponse(BPR_ACK, 0);
      } else {
        SendResponse(BPR_ERR, BPE_CRC);
      }
    }

    method HandleZero(hdr: Header)
      requires mem.Length == SPACE && hdr.pType == BPT_ZERO
      modifies mem, this`tx
      ensures mem[..] == MemoryAfter(area, hdr, old(mem[..]), [])
      ensures tx == old(tx) + EncodeResponse(Answer(area, hdr, []))
    {
      if !Accepts(area, hdr.address, hdr.size) {
        SendResponse(BPR_ERR, BPE_OVR);
        return;
      }
      MemSet32(hdr.address, if hdr.flags & BPF_BEEF != 0 then 0xDEADBEEF else 0, hdr.size);
      SendResponse(BPR_ACK, 0);
    }

    /** Reads and forgets what has arrived. */
    method DrainRx(arrived: nat)
      modifies this`rx
      ensures rx == old(rx)[Least(arrived, |old(rx)|)..]
    {
      var k := 0;
      while k < arrived && rx != []
        invariant 0 <= k <= arrived && k <= |old(rx)| && rx == old(rx)[k..]
      {
        rx := rx[1..];
        k := k + 1;
      }
    }

    /** Waits, throws away what has arrived, and reports the type it did not know. */
    method HandleUnknown(hdr: Header, arrived: nat)
      modifies this`rx, this`tx
      ensures rx == old(rx)[Least(arrived, |old(rx)|)..]
      ensures tx == old(tx) + EncodeResponse(Response(BPR_ERR, hdr.pType))
    {
      DrainRx(arrived);
      SendResponse(BPR_ERR, hdr.pType);
    }

    /** One turn of the command loop. */
    method ServePacket(arrivals: seq<nat>)
      returns (last: bool, outcome: Outcome, pending: seq<nat>, ghost turn: Turn)
      requires mem.Length == SPACE
      modifies mem, this`rx, this`tx
      ensures turn == OneTurn(area, old(mem[..]), old(rx), arrivals)
      ensures last == turn.Last?
      ensures match turn
        case Last(s) => outcome == s.outcome && mem[..] == s.mem && tx == old(tx) + s.tx
        case More(mem', reply, rx', arrivals') =>
          mem[..] == mem' && tx == old(tx) + reply && rx == rx' && pending == arrivals'
    {
      last, outcome, pending, turn := false, InHeader([]), arrivals, OneTurn(area, mem[..], rx, arrivals);
      var blocked, hdr, got := KReadHeader();
      if blocked { last, outcome := true, InHeader(got); return; }
      if hdr.pType == BPT_PING {
        SendResponse(BPR_RDY, 0);
      } else if hdr.pType == BPT_LOAD {
        var received;
        last, received := HandleLoad(hdr);
        outcome := InData(hdr, received);
      } else if hdr.pType == BPT_ZERO {
        HandleZero(hdr);
      } else if hdr.pType == BPT_EXEC {
        SendResponse(BPR_ACK, 0);
        last, outcome := true, Started(hdr.address, hdr.flags & BPF_NOWD == 0);
      } else if hdr.pType == BPT_REBOOT {
        SendResponse(BPR_ACK, 0);
      } else if arrivals == [] {
        HandleUnknown(hdr, 0);
      } else {
        HandleUnknown(hdr, arrivals[0]);
        pending := arrivals[1..];
      }
    }

    /** The command loop. */
    method KMain(arrivals: seq<nat>) returns (outcome: Outcome)
      requires mem.Length == SPACE
      modifies mem, this`rx, this`tx
      ensures Prepend(old(tx), Serve(area, old(mem[..]), old(rx), arrivals)) == Service(mem[..], tx, outcome)
    {
      var pending, last := arrivals, false;
      while true
        invariant Prepend(old(tx), Serve(area, old(mem[..]), old(rx), arrivals))
               == Prepend(tx, Serve(area, mem[..], rx, pending))
        decreases |rx|
      {
        ghost var turn;
        ghost var before, bytes, packets, sent := mem[..], rx, pending, tx;
        last, outcome, pending, turn := ServePacket(pending);
        if last {
          return;
        }
        ServeMore(area, before, bytes, packets, turn);
        PrependTwice(sent, turn.reply, Serve(area, turn.mem, turn.rx, turn.arrivals));
      }
    }
  }
}
