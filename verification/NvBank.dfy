/** The paged memory bank of mbnv.c over the scratchpad protocol of mbscr.c, on the default
    family path: reading, the page-splitting writer, and the Universal Data Packet on a page. */
module NvBank {
  import opened Bytes
  import opened CrcLaws
  import opened CrcUtil
  import Packet
  import opened Splices
  import opened NvDevice
  import opened Wrappers

  /** What the getters of mbnv.c say about a bank of a part. */
  datatype Bank = Bank(start: nat, pages: nat, generalPurpose: bool, readOnly: bool)

  predicate ValidBank(b: Bank) {
    b.start % PAGE == 0 && b.start + PAGE * b.pages < 0x10000
  }

  function Size(b: Bank): nat { PAGE * b.pages }

  predicate CopyDone(answer: Byte) { answer & 0xF0 == 0 }

  /** The upper four bits of the answer tell. */
  lemma CopyDoneByNumber(answer: Byte)
    ensures CopyDone(answer) <==> answer < 16
  {
  }

  /** A chunk inside one page: the ending offset the copy names is the one the device recorded. */
  lemma EndingOffsetMatches(addr: nat, n: nat)
    requires 0 < n <= PAGE - addr % PAGE
    ensures (addr + n - 1) % PAGE == addr % PAGE + n - 1
  {
  }

  /** The device holds data for addr: its target is addr and the scratchpad has the data from there on. */
  predicate Holds(d: Device, addr: nat, data: seq<Byte>) {
    ValidDevice(d) && d.target == addr && |data| <= PAGE - addr % PAGE
    && d.scratch[addr % PAGE..addr % PAGE + |data|] == data
  }

  /** What is read back tells whether the device holds the data, given that its target is right. */
  lemma ReadBackDecides(d: Device, addr: nat, data: seq<Byte>, rawBuf: seq<Byte>)
    requires ValidDevice(d) && |data| <= PAGE - addr % PAGE && rawBuf == Padded(d.scratch[d.target % PAGE..], PAGE)
    ensures d.target == addr ==> (Holds(d, addr, data) <==> rawBuf[..|data|] == data)
    ensures Holds(d, addr, data) ==> d.target == addr
  {
    var off := d.target % PAGE;
    if d.target == addr {
      assert rawBuf[..|data|] == d.scratch[off..off + |data|];
    }
  }

  /** A scratchpad load that arrives whole leaves the device holding the data, ready to copy it. */
  lemma LoadedHolds(d: Device, addr: nat, data: seq<Byte>)
    requires ValidDevice(d) && addr + |data| <= |d.memory| && 0 < |data| <= PAGE - addr % PAGE && addr < 0x10000
    ensures Holds(Loaded(d, addr, data), addr, data) && Obeys(Loaded(d, addr, data), addr, |data|)
  {
  }

  /** The device holds the n bytes for addr in its scratchpad, ready to be copied. */
  predicate Obeys(d: Device, addr: nat, n: nat) {
    0 < n && CanCopy(d) && d.target == addr && d.es == addr % PAGE + n - 1
  }

  lemma AnswerBits()
    ensures CopyDone(0x00) && !CopyDone(0xFF)
  {
  }

  lemma SameOctet(m: nat, n: nat)
    requires m < 256 && n < 256 && OctetOf(m) == OctetOf(n)
    ensures m == n
  {
    assert OctetOf(m) as nat == OctetOf(n) as nat;
  }

  /** The copy block is compared with what the device recorded: the address bytes by the address
      they make, the ending offset by its value. */
  lemma SameNames(d: Device, addr: nat, es: nat, lo: Byte, hi: Byte, ending: Byte)
    requires ValidDevice(d) && addr < 0x10000 && es < PAGE
    requires lo == AddrLow(addr) && hi == AddrHigh(addr) && ending == OctetOf(es)
    ensures TargetOf(lo, hi) == d.target && ending == OctetOf(d.es) <==> addr == d.target && es == d.es
  {
    AddressRoundTrip(addr);
    if ending == OctetOf(d.es) {
      SameOctet(d.es, es);
    }
  }

  lemma CopyCommand(d: Device, block: seq<Byte>)
    requires ValidDevice(d) && d.phase == Idle && |block| == 5 && block[0] == COPY_SCRATCHPAD
    ensures Respond(d, block) == if CanCopy(d) && TargetOf(block[1], block[2]) == d.target && block[3] == OctetOf(d.es)
                                 then (d.(memory := Copied(d)), block[..4] + [0x00]) else (d, block)
  {
  }

  /** The copy block of a chunk is obeyed exactly when the device holds that chunk, and the answer says which. */
  lemma CopyAnswers(d: Device, e: Device, addr: nat, n: nat, block: seq<Byte>)
    requires ValidDevice(d) && addr < 0x10000 && 0 < n <= PAGE - addr % PAGE && e == d.(phase := Idle)
    requires block == [COPY_SCRATCHPAD, AddrLow(addr), AddrHigh(addr), OctetOf((addr + n - 1) % 32), 0xFF]
    ensures if Obeys(d, addr, n) then
              Respond(e, block).0.memory == Copied(d) && Respond(e, block).1 == block[..4] + [0x00]
            else
              Respond(e, block) == (e, block)
  {
    EndingOffsetMatches(addr, n);
    SameNames(d, addr, (addr + n - 1) % 32, block[1], block[2], block[3]);
    CopyCommand(e, block);
  }

  /** What a device sends while the host clocks n idle bytes. */
  function Supplied(d: Device, n: nat): (r: seq<Byte>)
    requires ValidDevice(d)
    ensures |r| == n
  {
    match d.phase
    case Idle => Padded([], n)
    case Reading(at) => if at + n <= |d.memory| then d.memory[at..at + n] else Padded([], n)
    case ReadingScratch => Padded(d.scratch[d.target % PAGE..], n)
  }

  lemma IdleBytesAreNoCommand(d: Device, n: nat)
    requires ValidDevice(d)
    ensures var r := Respond(d, Padded([], n)); r.0 == d.(phase := r.0.phase) && r.1 == Supplied(d, n)
  {
  }

  class Host {
    const bus: Bus
    const crc: CrcUnit
    const port: nat

    ghost predicate Valid()
      reads this, bus
    {
      bus.Valid() && crc.Valid() && port < MAX_PORTNUM
    }

    constructor (bus: Bus, crc: CrcUnit, port: nat)
      requires bus.Valid() && crc.Valid() && port < MAX_PORTNUM
      ensures Valid() && this.bus == bus && this.crc == crc
    {
      this.bus := bus;
      this.crc := crc;
      this.port := port;
    }

    /** Selects the device and tells it where reading starts. */
    method OpenRead(addr: nat) returns (ok: bool)
      requires Valid() && addr < 0x10000
      modifies bus
      ensures Valid() && bus.dev == old(bus.dev).(phase := bus.dev.phase) && (bus.reliable ==> ok)
      ensures ok ==> bus.dev.phase == Reading(addr)
    {
      ok := bus.Access();
      if !ok {
        return;
      }
      AddressRoundTrip(addr);
      var rawBuf;
      ghost var heard;
      ok, rawBuf, heard := bus.Block([READ_MEMORY, AddrLow(addr), AddrHigh(addr)]);
    }

    /** Fills a buffer with idle bytes and exchanges it for what the device sends. */
    method Transfer(len: nat) returns (ok: bool, buff: seq<Byte>)
      requires Valid()
      modifies bus
      ensures Valid() && bus.dev == old(bus.dev).(phase := bus.dev.phase) && (bus.reliable ==> ok)
      ensures ok ==> buff == Supplied(old(bus.dev), len)
      ensures ok && old(bus.dev).phase.Reading? && old(bus.dev).phase.at + len <= |bus.dev.memory| ==>
                bus.dev.phase == Reading(old(bus.dev).phase.at + len)
    {
      buff := [];
      for i := 0 to len
        invariant buff == Padded([], i)
      {
        buff := buff + [0xFF];
      }
      IdleBytesAreNoCommand(bus.dev, len);
      ghost var heard;
      ok, buff, heard := bus.Block(buff);
    }

    /** readNV. A continued read goes on where the device stands. */
    method ReadNV(bank: Bank, strAdd: nat, rdCont: bool, len: nat) returns (ok: bool, buff: seq<Byte>)
      requires Valid() && ValidBank(bank) && bank.start + Size(bank) <= |bus.dev.memory|
      modifies bus
      ensures Valid() && bus.dev == old(bus.dev).(phase := bus.dev.phase)
      ensures ok ==> strAdd + len <= Size(bank) && |buff| == len
      ensures ok && (!rdCont || old(bus.dev).phase == Reading(bank.start + strAdd)) ==>
                && buff == bus.dev.memory[bank.start + strAdd..bank.start + strAdd + len]
                && bus.dev.phase == Reading(bank.start + strAdd + len)
      ensures bus.reliable && strAdd + len <= Size(bank) ==> ok
    {
      buff := [];
      if strAdd + len > Size(bank) {
        return false, buff;
      }
      if !rdCont {
        ok := OpenRead(strAdd + bank.start);
        if !ok {
          return;
        }
      }
      var pgs, extra := len / PAGE, len % PAGE;
      ok, buff := Transfer(pgs * PAGE + extra);
    }

    /** writeScratchpd of mbscr.c. Its success says only that the bus carried something. */
    method WriteScratchpd(strAdd: nat, writeBuf: seq<Byte>) returns (ok: bool)
      requires Valid() && strAdd < 0x10000 && 0 < |writeBuf| <= PAGE - strAdd % PAGE
      modifies bus
      ensures Valid() && bus.dev.memory == old(bus.dev).memory
      ensures bus.reliable ==> ok && bus.dev == Loaded(old(bus.dev), strAdd, writeBuf).(phase := Idle)
    {
      ok := bus.Access();
      if !ok {
        return;
      }
      AddressRoundTrip(strAdd);
      var rawBuf := [WRITE_SCRATCHPAD, AddrLow(strAdd), AddrHigh(strAdd)] + writeBuf;
      assert rawBuf[3..] == writeBuf;
      ghost var heard;
      ok, rawBuf, heard := bus.Block(rawBuf);
    }

    /** readScratchpdExtra of mbscr.c: target address and ending offset, then len bytes from the offset on. */
    method ReadScratchpdExtra(len: nat) returns (ok: bool, buff: seq<Byte>, extra: seq<Byte>)
      requires Valid()
      modifies bus
      ensures Valid() && bus.dev == old(bus.dev).(phase := bus.dev.phase) && (bus.reliable ==> ok)
      ensures ok ==> |extra| == 3 && TargetOf(extra[0], extra[1]) == bus.dev.target
                     && buff == Padded(bus.dev.scratch[bus.dev.target % PAGE..], len)
    {
      buff, extra := [], [];
      ok := bus.Access();
      if !ok {
        return;
      }
      var rawBuf := [READ_SCRATCHPAD, 0xFF, 0xFF, 0xFF];
      ghost var heard;
      ok, rawBuf, heard := bus.Block(rawBuf);
      if !ok {
        return;
      }
      AddressRoundTrip(bus.dev.target);
      ok, buff := Transfer(len);
      extra := rawBuf[1..];
    }

    /** copyScratchpd of mbscr.c: names the address and the ending offset of the chunk. */
    method CopyScratchpd(strAdd: nat, len: nat) returns (ok: bool)
      requires Valid() && strAdd < 0x10000 && 0 < len <= PAGE - strAdd % PAGE
      modifies bus
      ensures Valid() && (bus.reliable && Obeys(old(bus.dev), strAdd, len) ==> ok)
      ensures ok || bus.dev.memory != old(bus.dev).memory ==>
                Obeys(old(bus.dev), strAdd, len) && bus.dev.memory == Copied(old(bus.dev))
    {
      ok := bus.Access();
      if !ok {
        return;
      }
      var rawBuf := [COPY_SCRATCHPAD, AddrLow(strAdd), AddrHigh(strAdd), OctetOf((strAdd + len - 1) % 32), 0xFF];
      AnswerBits();
      CopyAnswers(old(bus.dev), bus.dev, strAdd, len, rawBuf);
      ghost var heard;
      ok, rawBuf, heard := bus.Block(rawBuf);
      ok := ok && CopyDone(rawBuf[4]);
    }

    /** The comparison loop of writeNV: does the scratchpad hold buff[startx..nextx]? */
    method SameAs(rawBuf: seq<Byte>, buff: seq<Byte>, startx: nat, nextx: nat) returns (same: bool)
      requires startx <= nextx <= |buff| && nextx - startx <= |rawBuf|
      ensures same <==> rawBuf[..nextx - startx] == buff[startx..nextx]
    {
      for i := 0 to nextx - startx
        invariant rawBuf[..i] == buff[startx..startx + i]
      {
        if rawBuf[i] != buff[i + startx] {
          assert rawBuf[..nextx - startx][i] != buff[startx..nextx][i];
          return false;
        }
      }
      return true;
    }

    /** Reads the scratchpad back and compares it with the chunk buff[startx..nextx], and its address.
        What passes is in the scratchpad, however it got there. */
    method VerifyChunk(addr: nat, buff: seq<Byte>, startx: nat, nextx: nat) returns (ok: bool)
      requires Valid() && startx < nextx <= |buff| && nextx - startx <= PAGE - (addr + startx) % PAGE
      modifies bus
      ensures Valid() && bus.dev == old(bus.dev).(phase := bus.dev.phase)
      ensures ok ==> Holds(bus.dev, addr + startx, buff[startx..nextx])
      ensures bus.reliable && Holds(old(bus.dev), addr + startx, buff[startx..nextx]) ==> ok
    {
      var rawBuf, extra;
      ok, rawBuf, extra := ReadScratchpdExtra(PAGE);
      if !ok {
        return;
      }
      ReadBackDecides(bus.dev, addr + startx, buff[startx..nextx], rawBuf);
      ok := SameAs(rawBuf, buff, startx, nextx);
      if !ok {
        return;
      }
      if TargetOf(extra[0], extra[1]) != addr + startx {
        return false;
      }
    }

    /** First half of a turn of writeNV: the chunk goes to the scratchpad and is verified there. */
    method LoadChunk(addr: nat, buff: seq<Byte>, startx: nat, nextx: nat) returns (ok: bool)
      requires Valid() && startx < nextx <= |buff| && nextx - startx <= PAGE - (addr + startx) % PAGE
      requires addr + nextx <= |bus.dev.memory|
      modifies bus
      ensures Valid() && bus.dev.memory == old(bus.dev).memory
      ensures ok ==> Holds(bus.dev, addr + startx, buff[startx..nextx])
      ensures bus.reliable ==> ok && Obeys(bus.dev, addr + startx, nextx - startx)
    {
      LoadedHolds(bus.dev, addr + startx, buff[startx..nextx]);
      ok := WriteScratchpd(addr + startx, buff[startx..nextx]);
      if ok {
        ok := VerifyChunk(addr, buff, startx, nextx);
      }
    }

    /** One turn of writeNV: the verified chunk is copied. */
    method WriteChunk(addr: nat, buff: seq<Byte>, startx: nat, nextx: nat) returns (ok: bool)
      requires Valid() && startx < nextx <= |buff| && nextx - startx <= PAGE - (addr + startx) % PAGE
      requires addr + nextx <= |bus.dev.memory|
      modifies bus
      ensures Valid() && (bus.reliable ==> ok)
      ensures ok || bus.dev.memory != old(bus.dev.memory) ==>
                bus.dev.memory == Splice(old(bus.dev.memory), addr + startx, buff[startx..nextx])
    {
      ok := LoadChunk(addr, buff, startx, nextx);
      if !ok {
        return;
      }
      ok := CopyScratchpd(addr + startx, nextx - startx);
    }

    /** writeNV on the default family path: chunks that never leave a page, each verified before it
        is copied. Whatever fails, the device then holds a prefix of the buffer spliced in and
        nothing else. */
    method WriteNV(bank: Bank, strAdd: nat, buff: seq<Byte>) returns (ok: bool)
      requires Valid() && ValidBank(bank) && bank.start + Size(bank) <= |bus.dev.memory|
      modifies bus
      ensures Valid()
      ensures !Writable(bank, strAdd, buff) ==> ok == (buff == []) && bus.dev == old(bus.dev)
      ensures Writable(bank, strAdd, buff) ==>
                && PrefixWritten(old(bus.dev.memory), bank.start + strAdd, buff, bus.dev.memory)
                && (ok ==> bus.dev.memory == Splice(old(bus.dev.memory), bank.start + strAdd, buff))
                && (bus.reliable ==> ok)
      ensures var fits := strAdd + |buff| <= 32 * bank.pages && !bank.readOnly;
              && (ok && buff != [] ==>
                    fits && Replaced(old(bus.dev.memory), bank.start + strAdd, buff, bus.dev.memory))
              && (fits ==> PrefixReplaced(old(bus.dev.memory), bank.start + strAdd, buff, bus.dev.memory))
              && (!fits ==> bus.dev.memory == old(bus.dev.memory))
    {
      ReplacedByNothing(bus.dev.memory, bank.start + strAdd, buff);
      if |buff| == 0 {
        return true;
      }
      if strAdd + |buff| > Size(bank) {
        return false;
      }
      if bank.readOnly {
        return false;
      }
      var startx, nextx, addr := 0, 0, bank.start + strAdd;
      ghost var mem0 := bus.dev.memory;
      SpliceNothing(mem0, addr);
      assert WrittenUpTo(mem0, addr, buff, 0, mem0);
      while startx < |buff|
        invariant 0 <= startx <= |buff| && Valid()
        invariant WrittenUpTo(mem0, addr, buff, startx, bus.dev.memory)
      {
        ghost var mem := bus.dev.memory;
        var roomLeft := PAGE - (addr + startx) % PAGE;
        nextx := if |buff| - startx > roomLeft then startx + roomLeft else |buff|;
        ok := WriteChunk(addr, buff, startx, nextx);
        ChunkExtends(mem0, addr, buff, startx, nextx, mem);
        if !ok {
          WrittenIsReplaced(mem0, addr, buff, bus.dev.memory);
          return;
        }
        startx := nextx;
      }
      assert buff[..startx] == buff;
      WrittenIsReplaced(mem0, addr, buff, bus.dev.memory);
      ok := true;
    }

    /** readPageNV. Its page check lets one page too many through; readNV's range check does not. */
    method ReadPageNV(bank: Bank, page: int, rdCont: bool) returns (ok: bool, buff: seq<Byte>)
      requires Valid() && ValidBank(bank) && bank.start + Size(bank) <= |bus.dev.memory|
      modifies bus
      ensures Valid() && bus.dev == old(bus.dev).(phase := bus.dev.phase)
      ensures ok ==> 0 <= page < bank.pages && |buff| == PAGE
      ensures ok && Positioned(old(bus.dev), bank, page, rdCont) ==> buff == PageBytes(bank, page, bus.dev.memory)
      ensures bus.reliable && 0 <= page < bank.pages ==> ok
    {
      buff := [];
      if page < 0 || page > bank.pages {
        return false, buff;
      }
      ok, buff := ReadNV(bank, page * PAGE, rdCont, PAGE);
    }

    /** The CRC and length checks of readPagePacketNV on a page that has been read. */
    method CheckPacket(bank: Bank, page: nat, rawBuf: seq<Byte>) returns (ok: bool, buff: seq<Byte>)
      requires Valid() && |rawBuf| == PAGE
      modifies crc.utilcrc16
      ensures ok <==> Packet.Decode(Packet.PageSeed(bank.start / PAGE + page), rawBuf).Some?
      ensures ok ==> Packet.Decode(Packet.PageSeed(bank.start / PAGE + page), rawBuf) == Some(buff)
    {
      buff := [];
      var n := rawBuf[0] as nat;
      if n > Packet.MAX_DATA || n <= 0 {
        return false, buff;
      }
      var lastcrc16 := crc.RunCrc16(port, Packet.PageSeed(bank.start / PAGE + page), rawBuf[..n + 3]);
      ok := lastcrc16 == 0xB001;
      if ok {
        buff := CopyData(rawBuf, n);
      }
    }

    /** The loop that hands out the data of a packet. */
    method CopyData(rawBuf: seq<Byte>, n: nat) returns (buff: seq<Byte>)
      requires n + 1 <= |rawBuf|
      ensures buff == rawBuf[1..n + 1]
    {
      buff := [];
      for i := 1 to n + 1
        invariant buff == rawBuf[1..i]
      {
        assert rawBuf[1..i + 1] == rawBuf[1..i] + [rawBuf[i]];
        buff := buff + [rawBuf[i]];
      }
    }

    /** readPagePacketNV: succeeds exactly on a page that holds a packet bound to its number. */
    method ReadPagePacketNV(bank: Bank, page: int, rdCont: bool) returns (ok: bool, buff: seq<Byte>)
      requires Valid() && ValidBank(bank) && bank.start + Size(bank) <= |bus.dev.memory|
      modifies bus, crc.utilcrc16
      ensures Valid() && bus.dev == old(bus.dev).(phase := bus.dev.phase)
      ensures ok ==> 0 <= page < bank.pages
      ensures ok && Positioned(old(bus.dev), bank, page, rdCont) ==> PacketAt(bank, page, bus.dev.memory) == Some(buff)
      ensures bus.reliable && 0 <= page < bank.pages && Positioned(old(bus.dev), bank, page, rdCont) ==>
                (ok <==> PacketAt(bank, page, bus.dev.memory).Some?)
    {
      buff := [];
      var rawBuf;
      ok, rawBuf := ReadPageNV(bank, page, rdCont);
      if !ok {
        return;
      }
      ok, buff := CheckPacket(bank, page, rawBuf);
    }

    /** The packet writePagePacketNV builds. */
    method BuildPacket(bank: Bank, page: nat, buff: seq<Byte>) returns (rawBuf: seq<Byte>)
      requires Valid() && |buff| <= Packet.MAX_DATA
      modifies crc.utilcrc16
      ensures rawBuf == Packet.Encode(Packet.PageSeed(bank.start / PAGE + page), buff)
    {
      rawBuf := [OctetOf(|buff|)];
      for i := 1 to |buff| + 1
        invariant rawBuf == [OctetOf(|buff|)] + buff[..i - 1]
      {
        assert buff[..i] == buff[..i - 1] + [buff[i - 1]];
        rawBuf := rawBuf + [buff[i - 1]];
      }
      assert buff[..|buff|] == buff;
      var last := crc.RunCrc16(port, Packet.PageSeed(bank.start / PAGE + page), rawBuf);
      rawBuf := rawBuf + [LowOf(Inverted(last)), HighOf(Inverted(last))];
    }

    /** writePagePacketNV. */
    method WritePagePacketNV(bank: Bank, page: nat, buff: seq<Byte>) returns (ok: bool)
      requires Valid() && ValidBank(bank) && bank.start + Size(bank) <= |bus.dev.memory|
      modifies bus, crc.utilcrc16
      ensures Valid() && |bus.dev.memory| == |old(bus.dev.memory)|
      ensures !PacketWritable(bank, page, buff) ==> !ok && bus.dev == old(bus.dev)
      ensures PacketWritable(bank, page, buff) ==>
                var frame := Packet.Encode(Packet.PageSeed(bank.start / PAGE + page), buff);
                && PrefixWritten(old(bus.dev.memory), bank.start + page * PAGE, frame, bus.dev.memory)
                && (ok ==> bus.dev.memory == Splice(old(bus.dev.memory), bank.start + page * PAGE, frame))
                && (bus.reliable ==> ok)
    {
      if |buff| > Packet.MAX_DATA {
        return false;
      }
      if !bank.generalPurpose {
        return false;
      }
      var rawBuf := BuildPacket(bank, page, buff);
      ok := WriteNV(bank, page * PAGE, rawBuf);
    }
  }

  /** A packet write that is carried out. The packet may end inside the page, so that a page whose
      packet fits the bank is in the bank. */
  predicate PacketWritable(b: Bank, page: nat, buff: seq<Byte>) {
    |buff| <= Packet.MAX_DATA && b.generalPurpose && page < b.pages && !b.readOnly
  }

  /** The read that is about to happen starts at the page: a fresh one does, a continued one when
      the device stands there. */
  predicate Positioned(d: Device, b: Bank, page: int, rdCont: bool) {
    !rdCont || (0 <= page && d.phase == Reading(b.start + page * PAGE))
  }

  function PageBytes(b: Bank, page: nat, mem: seq<Byte>): (r: seq<Byte>)
    requires page < b.pages && b.start + Size(b) <= |mem|
    ensures |r| == PAGE
  {
    mem[b.start + page * PAGE..b.start + page * PAGE + PAGE]
  }

  /** The packet a memory holds on a page of a bank, if any. */
  function PacketAt(b: Bank, page: nat, mem: seq<Byte>): Option<seq<Byte>>
    requires page < b.pages && b.start + Size(b) <= |mem|
  {
    Packet.Decode(Packet.PageSeed(b.start / PAGE + page), PageBytes(b, page, mem))
  }

  /** A frame written at the start of a page leaves every other page as it was. */
  lemma OtherPageUntouched(b: Bank, page: nat, frame: seq<Byte>, mem: seq<Byte>, q: nat)
    requires page < b.pages && q < b.pages && q != page && |frame| <= PAGE && b.start + Size(b) <= |mem|
    ensures PageBytes(b, q, Splice(mem, b.start + page * PAGE, frame)) == PageBytes(b, q, mem)
  {
    SliceOfSplice(mem, b.start + page * PAGE, frame, b.start + q * PAGE, b.start + q * PAGE + PAGE);
  }

  lemma OwnPageHolds(b: Bank, page: nat, frame: seq<Byte>, mem: seq<Byte>)
    requires page < b.pages && |frame| <= PAGE && b.start + Size(b) <= |mem|
    ensures PageBytes(b, page, Splice(mem, b.start + page * PAGE, frame)) == Splice(PageBytes(b, page, mem), 0, frame)
  {
    SliceOfSplice(mem, b.start + page * PAGE, frame, b.start + page * PAGE, b.start + page * PAGE + PAGE);
  }

  lemma OwnPacketReads(b: Bank, page: nat, data: seq<Byte>, mem: seq<Byte>, frame: seq<Byte>)
    requires page < b.pages && |data| <= Packet.MAX_DATA && b.start + Size(b) <= |mem|
    requires frame == Packet.Encode(Packet.PageSeed(b.start / PAGE + page), data)
    ensures PacketAt(b, page, Splice(mem, b.start + page * PAGE, frame)) == if data == [] then None else Some(data)
  {
    OwnPageHolds(b, page, frame, mem);
    Packet.RoundTrip(Packet.PageSeed(b.start / PAGE + page), PageBytes(b, page, mem), data);
  }

  /** Writing a packet and reading it back: its page then holds the data (an empty packet reads as
      none), every other page holds what it held, and no byte outside the frame has changed. */
  lemma PacketRoundTrip(b: Bank, page: nat, data: seq<Byte>, mem: seq<Byte>, frame: seq<Byte>)
    requires page < b.pages && |data| <= Packet.MAX_DATA && b.start + Size(b) <= |mem|
    requires frame == Packet.Encode(Packet.PageSeed(b.start / PAGE + page), data)
    ensures var after := Splice(mem, b.start + page * PAGE, frame);
            && PacketAt(b, page, after) == (if data == [] then None else Some(data))
            && (forall q: nat | q < b.pages && q != page :: PacketAt(b, q, after) == PacketAt(b, q, mem))
            && (forall i: nat | i < |mem| && !(0 <= i - (b.start + page * PAGE) < |frame|) :: after[i] == mem[i])
  {
    OwnPacketReads(b, page, data, mem, frame);
    SpliceLeaves(mem, b.start + page * PAGE, frame);
    forall q: nat | q < b.pages && q != page {
      OtherPageUntouched(b, page, frame, mem, q);
    }
  }

  /** The seed of a page's packets is the number of its 32 bytes counted from the start of the part: two banks
      that share a page share its packet. */
  lemma PacketsShared(b: Bank, c: Bank, page: nat, q: nat, mem: seq<Byte>)
    requires ValidBank(b) && ValidBank(c) && page < b.pages && q < c.pages
    requires b.start + Size(b) <= |mem| && c.start + Size(c) <= |mem| && b.start + 32 * page == c.start + 32 * q
    ensures Packet.PageSeed(b.start / PAGE + page) as nat == (b.start + 32 * page) / 32 % 0x10000
    ensures PacketAt(b, page, mem) == PacketAt(c, q, mem)
  {
  }

  /** A write that is carried out: something to write, in range, in a bank that may be written. */
  predicate Writable(b: Bank, strAdd: nat, buff: seq<Byte>) {
    buff != [] && strAdd + |buff| <= Size(b) && !b.readOnly
  }
}
