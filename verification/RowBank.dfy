/** Row-wise read-modify-write: writeSHAEE of mbshaee.c, where every copied row is authorised by
    a MAC over the host's copy of the page, and writeEEWP of mbeewp.c, the same loop without it. */
module RowBank {
  import opened Bytes
  import opened CrcUtil
  import opened CrcLaws
  import opened Sha1
  import opened Splices
  import opened RowDevice

  const PAGE_LENGTH := 32

  predicate SameIdentity(d: Device, e: Device) {
    d.secret == e.secret && d.rom == e.rom && d.authenticated == e.authenticated
  }

  /** The page number copySpad puts into the message, by masking and shifting the address. */
  function PageBits(addr: nat): Byte
  {
    OctetOf(addr % 256 / 16 * 16 / 32)
  }

  lemma PageBitsIsPageNumber(addr: nat)
    requires addr < MEMORY
    ensures PageBits(addr) == PageNumber(addr)
  {
    MaskedShift(addr, addr / 32, addr % 32);
  }

  /** Masking off the low four bits and shifting by five is dividing by 32. */
  lemma MaskedShift(addr: nat, q: nat, r: nat)
    requires addr < 256 && addr == 32 * q + r && r < 32
    ensures addr % 256 / 16 * 16 / 32 == q
  {
    if r < 16 {
      assert addr / 16 == 2 * q;
    } else {
      assert addr / 16 == 2 * q + 1;
    }
  }

  /** Copies bytes into a buffer one by one. */
  method CopyInto(dst: array<Byte>, at: nat, data: seq<Byte>)
    requires at + |data| <= dst.Length
    modifies dst
    ensures dst[..] == Splice(old(dst[..]), at, data)
  {
    for i := 0 to |data|
      invariant forall j | 0 <= j < dst.Length :: dst[j] == if at <= j < at + i then data[j - at] else old(dst[j])
    {
      dst[at + i] := data[i];
    }
  }

  /** Starting address of a bank of the SHA EEPROM part. */
  function StartSHAEE(bank: nat): nat {
    if bank == 1 then 32 else if bank == 2 then 64 else if bank == 3 then 128 else 0
  }

  function SizeSHAEE(bank: nat): nat { if bank == 2 then 64 else 32 }

  function PagesSHAEE(bank: nat): nat { if bank == 2 then 2 else 1 }

  /** Starting address of a bank of the write-protected EEPROM part. */
  function StartEEWP(bank: nat): nat { if 1 <= bank <= 4 then 32 * bank else 0 }

  /** The data banks lie one behind the other, from address 0 to the 128 bytes they fill, and are whole pages
      long; so do those of the write-protected part, one page each, up to the 160 bytes of the device. */
  lemma BanksTile(bank: nat)
    ensures StartSHAEE(0) == 0 && StartEEWP(0) == 0
    ensures bank < 2 ==> StartSHAEE(bank + 1) == StartSHAEE(bank) + SizeSHAEE(bank)
    ensures StartSHAEE(2) + SizeSHAEE(2) == 128
    ensures bank <= 2 ==> SizeSHAEE(bank) == 32 * PagesSHAEE(bank)
    ensures bank < 4 ==> StartEEWP(bank + 1) == StartEEWP(bank) + 32
    ensures StartEEWP(4) + 32 == 160 == MEMORY
  {
  }

  /** So no byte of the device is in two banks. */
  lemma BanksApart(a: nat, b: nat, i: nat, j: nat)
    ensures a < b <= 2 && i < SizeSHAEE(a) && j < SizeSHAEE(b) ==> StartSHAEE(a) + i < StartSHAEE(b) + j
    ensures a < b <= 4 && i < 32 && j < 32 ==> StartEEWP(a) + i < StartEEWP(b) + j
  {
  }

  /** What a write has done to the device, byte by byte: with success the bytes from an address on have become
      the buffer; without, some first of them; a request that does not fit or may not be written changes nothing
      and has no success, if there was something to write. */
  ghost predicate ReplacedFrom(mem0: seq<Byte>, at: nat, buff: seq<Byte>, fits: bool, ok: bool, mem: seq<Byte>) {
    if !fits || buff == [] then mem == mem0 && (ok ==> buff == [])
    else if ok then Replaced(mem0, at, buff, mem)
    else PrefixReplaced(mem0, at, buff, mem)
  }

  lemma WrittenFrom(mem0: seq<Byte>, at: nat, buff: seq<Byte>, ok: bool, mem: seq<Byte>)
    requires PrefixWritten(mem0, at, buff, mem) && buff != [] && at + |buff| <= |mem0|
    requires ok ==> mem == Splice(mem0, at, buff)
    ensures ReplacedFrom(mem0, at, buff, true, ok, mem)
  {
    WrittenIsReplaced(mem0, at, buff, mem);
  }

  /** How much of a chunk that starts at offset `off` of an 8-byte row lies before its end. */
  lemma ChunkInRow(cur: nat, n: nat)
    requires 0 < n <= 8 - cur % 8
    ensures n == 8 ==> cur % 8 == 0
    ensures if (cur + n) % 8 == 0 then 8 - cur % 8 == n else (cur + n) % 8 - cur % 8 == n
  {
  }

  /** Fills the row buffer: the row as it is, overlaid by the chunk buff[startx..nextx]. */
  method BuildRow(memory: array<Byte>, base: nat, strAdd: nat, buff: seq<Byte>, startx: nat, nextx: nat)
      returns (row: seq<Byte>)
    requires base + 8 <= memory.Length && startx < nextx <= |buff| && nextx - startx <= 8 - (strAdd + startx) % 8
    ensures row == Splice(memory[base..base + 8], (strAdd + startx) % 8, buff[startx..nextx])
  {
    var off := (strAdd + startx) % 8;
    ChunkInRow(strAdd + startx, nextx - startx);
    var rawBuf := new Byte[8];
    CopyInto(rawBuf, 0, memory[base..base + 8]);
    assert rawBuf[..] == memory[base..base + 8];
    if nextx - startx == 8 {
      CopyInto(rawBuf, 0, buff[startx..startx + 8]);
    } else if (strAdd + nextx) % 8 == 0 {
      CopyInto(rawBuf, off, buff[startx..startx + (8 - off)]);
    } else {
      CopyInto(rawBuf, off, buff[startx..startx + ((strAdd + nextx) % 8 - off)]);
    }
    row := rawBuf[..];
  }

  /** Copying a row built from the page it replaces changes exactly the chunk. */
  lemma RowCopyIsChunk(d: Device, mem: seq<Byte>, cur: nat, chunk: seq<Byte>)
    requires ValidDevice(d) && |mem| == MEMORY && d.memory == mem && cur + |chunk| <= MEMORY
    requires 0 < |chunk| <= 8 - cur % 8 && d.target == cur - cur % 8
    requires d.scratch == Splice(mem[d.target..d.target + 8], cur % 8, chunk)
    ensures d.target + 8 <= MEMORY && RowOf(d.target) == d.target && Copied(d) == Splice(mem, cur, chunk)
  {
    SpliceInRow(mem, d.target, 8, cur % 8, chunk);
  }

  /** What is read before a partial row is written carries no CRC. Had the row been read as `seen`, copying
      it would change exactly the chunk just when it was read right outside the chunk. */
  lemma MisreadRow(d: Device, mem: seq<Byte>, cur: nat, chunk: seq<Byte>, seen: seq<Byte>)
    requires ValidDevice(d) && |mem| == MEMORY && d.memory == mem && cur + |chunk| <= MEMORY && |seen| == 8
    requires 0 < |chunk| <= 8 - cur % 8 && d.target == cur - cur % 8 && d.target + 8 <= MEMORY
    requires d.scratch == Splice(seen, cur % 8, chunk)
    ensures RowOf(d.target) == d.target
    ensures Copied(d) == Splice(mem, cur, chunk) <==> SameOutside(mem[d.target..d.target + 8], seen, cur % 8, |chunk|)
  {
    var row, off := mem[d.target..d.target + 8], cur % 8;
    SpliceInRow(mem, d.target, 8, off, chunk);
    SpliceIsInjective(mem, d.target, Splice(seen, off, chunk), Splice(row, off, chunk));
    SpliceHidesStretch(row, seen, off, chunk);
  }

  /** A MAC over the host's copy of a page authorises the copy when the first 28 bytes have been read right:
      the last four of the page are not covered. */
  lemma LastFourUncovered(d: Device, page: seq<Byte>, seen: seq<Byte>, secret: seq<Byte>, rom: seq<Byte>)
    requires ValidDevice(d) && d.target < MEMORY && page == PageAt(d, d.target) && |seen| == 32 && |secret| == 8
             && |rom| == 8
    requires d.secret == secret && d.rom == rom && seen[..28] == page[..28]
    ensures CopyMac(secret, seen, d.scratch, PageNumber(d.target), rom) == ExpectedMac(d)
  {
    assert seen[..28] == page[..28];
  }

  lemma DivBy8(x: nat, q: nat, r: nat)
    requires x == 8 * q + r && r < 8
    ensures x / 8 == q && x % 8 == r
  {
  }

  lemma DivBy32(x: nat, q: nat, r: nat)
    requires x == 32 * q + r && r < 32
    ensures x / 32 == q && x % 32 == r
  {
  }

  /** Where the row of the byte at offset p of a bank lies: in the bank's first or second page. */
  lemma RowPlace(start: nat, p: nat, base: int, addr: int, roomLeft: int)
    requires start % 32 == 0 && p < 64 && roomLeft == 8 - (start + p) % 8
    requires base == p / 8 * 8 - (if p >= 32 then 32 else 0) && addr == start + p + roomLeft - 8
    ensures (start + p) % 8 == p % 8 && addr == start + p - p % 8 && addr % 8 == 0
    ensures 0 <= base && base + 8 <= 32
    ensures addr / 32 * 32 == start + (if p >= 32 then 32 else 0) && addr == addr / 32 * 32 + base
  {
    var s, q, r := start / 32, p / 8, p % 8;
    DivBy8(start + p, 4 * s + q, r);
    DivBy8(addr, 4 * s + q, 0);
    if p < 32 {
      DivBy32(addr, s, 8 * q);
    } else {
      DivBy32(addr, s + 1, 8 * q - 32);
    }
  }

  /** Storing the written row in the host's copy keeps it equal to the device's page. */
  lemma HostCopyFollows(mem: seq<Byte>, start: nat, base: nat, off: nat, chunk: seq<Byte>, memory: seq<Byte>)
    requires |mem| == MEMORY && |memory| == 64 && start + 32 <= MEMORY && base + 8 <= 32 && off + |chunk| <= 8
    requires memory[..32] == mem[start..start + 32]
    ensures Splice(memory, base, Splice(memory[base..base + 8], off, chunk))[..32]
         == Splice(mem, start + base + off, chunk)[start..start + 32]
  {
    var page := memory[..32];
    assert memory[base..base + 8] == page[base..base + 8];
    var row := Splice(page[base..base + 8], off, chunk);
    SliceOfSplice(memory, base, row, 0, 32);
    assert memory[0..32] == page;
    SpliceInRow(page, base, 8, off, chunk);
    SliceOfSplice(mem, start + base + off, chunk, start, start + 32);
  }

  /** A write that is carried out: something to write, in range, in a bank that may be written. */
  predicate InRange(size: nat, strAdd: nat, buff: seq<Byte>, readOnly: bool) {
    buff != [] && strAdd + |buff| <= size && !readOnly
  }

  /** Where the loop stores the written row in its 64-byte copy, and that it fits. */
  function StoreIndex(strAdd: nat, p: nat): (at: nat)
    requires strAdd <= p < 64
    ensures at + 8 <= 64 && (p < PAGE_LENGTH ==> at == p / 8 * 8)
  {
    p / 8 * 8 - (if strAdd >= PAGE_LENGTH then 32 else 0)
  }

  /** Where the row of offset p starts in the host's copy of p's page. */
  function RowBase(p: nat): (base: nat)
    requires p < 64
    ensures base + 8 <= 32 && (p < PAGE_LENGTH ==> base == p / 8 * 8)
  {
    p / 8 * 8 - (if p >= PAGE_LENGTH then 32 else 0)
  }

  /** rawBuf is the device's row at addr with the chunk that starts at cur laid over it. */
  predicate RowReady(mem: seq<Byte>, addr: nat, rawBuf: seq<Byte>, cur: nat, chunk: seq<Byte>) {
    && |mem| == MEMORY && cur + |chunk| <= MEMORY && addr + 8 <= MEMORY
    && 0 < |chunk| <= 8 - cur % 8 && addr == cur - cur % 8
    && rawBuf == Splice(mem[addr..addr + 8], cur % 8, chunk)
  }

  /** The row built from the host's copy of a page is the device's row with the chunk laid over it. */
  lemma RowOfPage(d: Device, copy: seq<Byte>, at: nat, base: nat, addr: nat, off: nat, chunk: seq<Byte>,
                  rawBuf: seq<Byte>)
    requires ValidDevice(d) && |copy| == 64 && at + 32 <= MEMORY && base + 8 <= 32 && at == addr / 32 * 32
             && addr == at + base
    requires copy[..32] == d.memory[at..at + 32] && addr % 8 == 0 && 0 < |chunk| <= 8 - off
    requires rawBuf == Splice(copy[base..base + 8], off, chunk)
    ensures PageAt(d, addr) == copy[..32] && RowReady(d.memory, addr, rawBuf, addr + off, chunk)
  {
    SliceOfSlice(d.memory, at, at + 32, base, base + 8);
    assert copy[..32][base..base + 8] == copy[base..base + 8];
    DivBy8(addr + off, addr / 8, off);
  }

  /** rawBuf is the row of offset p in the host's copy of the first page, with the chunk laid over it. */
  predicate RowOfCopy(copy: seq<Byte>, p: nat, rawBuf: seq<Byte>, chunk: seq<Byte>) {
    && |copy| == 64 && p < PAGE_LENGTH && p % 8 + |chunk| <= 8 && RowBase(p) + p % 8 == p
    && rawBuf == Splice(copy[RowBase(p)..RowBase(p) + 8], p % 8, chunk)
  }

  class Host {
    const bus: Bus
    const crc: CrcUnit
    const port: nat
    var localSecret: seq<Byte>

    ghost predicate Valid()
      reads this, bus
    {
      bus.Valid() && crc.Valid() && port < MAX_PORTNUM && |localSecret| == 8
    }

    constructor (bus: Bus, crc: CrcUnit, port: nat, secret: seq<Byte>)
      requires bus.Valid() && crc.Valid() && port < MAX_PORTNUM && |secret| == 8
      ensures Valid() && this.bus == bus && this.localSecret == secret
    {
      this.bus := bus;
      this.crc := crc;
      this.port := port;
      this.localSecret := secret;
    }

    /** A page buffer of the host is neither the bus nor a CRC accumulator. */
    predicate Apart(memory: array<Byte>) {
      (memory as object) != bus && (memory as object) != crc.utilcrc16
    }

    /** Selects the device and tells it where reading starts. */
    method OpenRead(addr: nat) returns (ok: bool)
      requires Valid() && addr < 0x10000
      modifies bus
      ensures Valid() && bus.dev == old(bus.dev).(phase := bus.dev.phase) && (bus.reliable ==> ok)
      ensures ok ==> bus.dev.phase == Reading(addr)
    {
      ok := bus.Access();
      if !ok {
        return;
      }
      AddressRoundTrip(addr);
      var rawBuf;
      ghost var heard;
      ok, rawBuf, heard := bus.Block([READ_MEMORY, AddrLow(addr), AddrHigh(addr)]);
    }

    /** Reads len bytes of a bank that starts at `start` and has `pages` pages. A continued read does not
        select the device again: it gets what is asked for if the device stands there. */
    method Read(start: nat, pages: nat, strAdd: nat, rdCont: bool, len: nat) returns (ok: bool, buff: seq<Byte>)
      requires Valid() && start + PAGE_LENGTH * pages <= MEMORY
      modifies bus
      ensures Valid()
      ensures !rdCont || old(bus.dev).phase.Reading? ==>
                bus.dev.memory == old(bus.dev.memory) && SameIdentity(old(bus.dev), bus.dev)
      ensures ok ==> strAdd + len <= PAGE_LENGTH * pages && |buff| == len
      ensures ok && (!rdCont || old(bus.dev).phase == Reading(start + strAdd)) ==>
                && buff == old(bus.dev.memory)[start + strAdd..start + strAdd + len]
                && bus.dev.phase == Reading(start + strAdd + len)
      ensures bus.reliable ==> (ok <==> strAdd + len <= PAGE_LENGTH * pages)
    {
      buff := [];
      if strAdd + len > PAGE_LENGTH * pages {
        return false, buff;
      }
      if !rdCont {
        ok := OpenRead(strAdd + start);
        if !ok {
          return;
        }
      }
      for i := 0 to len
        invariant |buff| == i
      {
        buff := buff + [0xFF];
      }
      ghost var heard;
      ok, buff, heard := bus.Block(buff);
    }

    /** Writes eight bytes to the scratchpad and checks the CRC the device returns. */
    method WriteSpad(addr: nat, outBuf: seq<Byte>) returns (ok: bool)
      requires Valid() && addr < 0x10000 && |outBuf| == 8
      modifies bus, crc.utilcrc16
      ensures Valid() && bus.dev.memory == old(bus.dev.memory) && SameIdentity(old(bus.dev), bus.dev)
      ensures ok ==> bus.dev == old(bus.dev).(phase := Idle, target := addr, scratch := outBuf, es := ENDING)
      ensures bus.reliable ==> ok
    {
      ok := bus.Access();
      if !ok {
        return;
      }
      var sendBlock := [WRITE_SCRATCHPAD, AddrLow(addr), AddrHigh(addr)] + outBuf + [0xFF, 0xFF];
      ghost var heard;
      ghost var sent, d := sendBlock, bus.dev;
      ok, sendBlock, heard := bus.Block(sendBlock);
      LoadIsExact(d, addr, outBuf, sent, heard);
      if !ok {
        return;
      }
      var lastcrc16 := crc.RunCrc16(port, 0, sendBlock);
      ok := lastcrc16 == 0xB001;
    }

    /** Reads target address, ending offset and data back from the scratchpad, under CRC. */
    method ReadSpad() returns (ok: bool, lo: Byte, hi: Byte, es: Byte, data: seq<Byte>)
      requires Valid()
      modifies bus, crc.utilcrc16
      ensures Valid() && bus.dev.memory == old(bus.dev.memory) && SameIdentity(old(bus.dev), bus.dev)
      ensures ok ==> bus.dev == old(bus.dev).(phase := Idle)
                     && TargetOf(lo, hi) == bus.dev.target && es == bus.dev.es && data == bus.dev.scratch
      ensures bus.reliable ==> ok
    {
      lo, hi, es, data := 0, 0, 0, [];
      ok := bus.Access();
      if !ok {
        return;
      }
      var sendBlock := [READ_SCRATCHPAD];
      for i := 0 to 13
        invariant |sendBlock| == i + 1 && sendBlock[0] == READ_SCRATCHPAD
      {
        sendBlock := sendBlock + [0xFF];
      }
      AddressRoundTrip(bus.dev.target);
      WithCrcAccepted([READ_SCRATCHPAD, AddrLow(bus.dev.target), AddrHigh(bus.dev.target),
                       bus.dev.es] + bus.dev.scratch);
      ghost var heard;
      ok, sendBlock, heard := bus.Block(sendBlock);
      if !ok {
        return;
      }
      lo, hi, es := sendBlock[1], sendBlock[2], sendBlock[3];
      var lastcrc16 := crc.RunCrc16(port, 0, sendBlock);
      ok := lastcrc16 == 0xB001;
      if ok {
        data := sendBlock[4..12];
      }
    }

    /** Asks the device to copy its scratchpad, authorised by the MAC over the host's page copy. */
    method CopySpad(addr: nat, rom: seq<Byte>, memory: seq<Byte>) returns (ok: bool)
      requires Valid() && addr < MEMORY && |rom| == 8 && |memory| >= 28
      modifies bus, crc.utilcrc16
      ensures Valid() && SameIdentity(old(bus.dev), bus.dev)
      ensures CopyOutcome(old(bus.dev), bus.dev.memory, ok)
      ensures bus.reliable && Authorised(old(bus.dev), addr, rom, memory) ==> ok
    {
      ghost var d := bus.dev;
      var lo, hi, es, scratch;
      ok, lo, hi, es, scratch := ReadSpad();
      if !ok {
        return;
      }
      var mac := BuildCopyMac(localSecret, memory, scratch, PageBits(addr), rom);
      if Authorised(d, addr, rom, memory) {
        AuthorisedMacMatches(d, addr, rom, memory);
        assert mac == ExpectedMac(bus.dev);
      }
      ok := SendCopy(lo, hi, es, mac);
    }

    /** Sends the copy command. The device then waits for the MAC, or has answered at once. */
    method SendCommand(lo: Byte, hi: Byte, es: Byte) returns (ok: bool)
      requires Valid()
      modifies bus
      ensures Valid() && SameIdentity(old(bus.dev), bus.dev) && (bus.reliable ==> ok)
      ensures CommandOutcome(old(bus.dev), bus.dev) || (!ok && bus.dev.memory == old(bus.dev).memory)
      ensures ok && Commanded(old(bus.dev), lo, hi, es) ==>
                bus.dev == if old(bus.dev).authenticated then old(bus.dev).(phase := AwaitMac)
                    else CopiedAtOnce(old(bus.dev))
    {
      ok := bus.Access();
      if !ok {
        return;
      }
      ghost var d := bus.dev;
      var reply;
      ghost var heard;
      ok, reply, heard := bus.Block([COPY_SCRATCHPAD, lo, hi, es]);
    }

    /** A copy that succeeds has put the scratchpad in place; one that fails has done that or nothing. */
    ghost predicate CopyOutcome(d: Device, mem: seq<Byte>, ok: bool) {
      ValidDevice(d) && ((!ok && mem == d.memory) || (d.target < MEMORY && mem == Copied(d)))
    }

    /** What a copy command can have done: start waiting, refuse, or copy at once. */
    ghost predicate CommandOutcome(d: Device, e: Device) {
      ValidDevice(d) &&
      (|| (d.target < MEMORY && e == d.(phase := AwaitMac))
       || e == d.(phase := Answer(0xFF))
       || (d.target < MEMORY && e == CopiedAtOnce(d)))
    }

    /** The device after a copy that needs no MAC. */
    function CopiedAtOnce(d: Device): Device
      requires ValidDevice(d) && d.target < MEMORY
    {
      d.(memory := Copied(d.(phase := Idle)), phase := Answer(0xAA))
    }

    /** Reads the byte that follows a copy: alternating ones and zeros mean success. */
    method Confirmed() returns (ok: bool)
      requires Valid()
      ensures ok <==> bus.dev.phase.Answer? && (bus.dev.phase.code == 0xAA || bus.dev.phase.code == 0x55)
    {
      var test := bus.ReadByte();
      ok := test == 0xAA || test == 0x55;
    }

    /** Sends the MAC and reads the device's verdict. */
    method SendMac(mac: seq<Byte>) returns (ok: bool)
      requires Valid()
      modifies bus
      ensures Valid() && SameIdentity(old(bus.dev), bus.dev)
      ensures old(bus.dev).phase == AwaitMac ==>
                && (bus.dev.memory == old(bus.dev).memory
                    || (old(bus.dev).target < MEMORY && bus.dev.memory == Copied(old(bus.dev))))
                && (ok ==> old(bus.dev).target < MEMORY && bus.dev.memory == Copied(old(bus.dev)))
                && (bus.reliable && old(bus.dev).target < MEMORY && mac == ExpectedMac(old(bus.dev)) ==> ok)
      ensures old(bus.dev).phase.Answer? ==>
                bus.dev == old(bus.dev) && (ok ==> bus.dev.phase.code == 0xAA || bus.dev.phase.code == 0x55)
    {
      var reply;
      ghost var heard;
      ok, reply, heard := bus.Block(mac);
      if !ok {
        return;
      }
      ok := Confirmed();
    }

    /** Sends the copy command with its MAC and reads the device's verdict. */
    method SendCopy(lo: Byte, hi: Byte, es: Byte, mac: seq<Byte>) returns (ok: bool)
      requires Valid()
      modifies bus
      ensures Valid() && SameIdentity(old(bus.dev), bus.dev)
      ensures CopyOutcome(old(bus.dev), bus.dev.memory, ok)
      ensures var d := old(bus.dev);
              bus.reliable && d.authenticated && Commanded(d, lo, hi, es) && mac == ExpectedMac(d) ==> ok
    {
      ok := SendCommand(lo, hi, es);
      if !ok {
        return;
      }
      PhaseDoesNotMatter(old(bus.dev), bus.dev);
      PhaseDoesNotMatter(old(bus.dev), old(bus.dev).(phase := Idle));
      ok := SendMac(mac);
    }

    /** What a copy does and which MAC it takes do not depend on the device's phase. */
    lemma PhaseDoesNotMatter(d: Device, e: Device)
      requires ValidDevice(d) && ValidDevice(e)
      ensures d.target < MEMORY && e == d.(phase := e.phase) ==>
              ExpectedMac(e) == ExpectedMac(d) && Copied(e) == Copied(d)
    {
    }

    /** The copy command names the target and ending offset the device recorded. */
    ghost predicate Commanded(d: Device, lo: Byte, hi: Byte, es: Byte) {
      ValidDevice(d) && d.target < MEMORY && TargetOf(lo, hi) == d.target && es == d.es
    }

    /** The host knows what the device will hash for the row at addr. */
    ghost predicate Authorised(d: Device, addr: nat, rom: seq<Byte>, memory: seq<Byte>)
      reads this
    {
      && ValidDevice(d) && addr < MEMORY && |rom| == 8 && |memory| >= 28 && |localSecret| == 8
      && d.authenticated && d.target == addr && d.secret == localSecret && d.rom == rom
      && PageAt(d, addr)[..28] == memory[..28]
    }

    lemma AuthorisedMacMatches(d: Device, addr: nat, rom: seq<Byte>, memory: seq<Byte>)
      requires Authorised(d, addr, rom, memory)
      ensures CopyMac(localSecret, memory, d.scratch, PageBits(addr), rom) == ExpectedMac(d)
    {
      PageBitsIsPageNumber(addr);
      assert CopyMessage(localSecret, memory, d.scratch, PageBits(addr), rom)
          == CopyMessage(d.secret, PageAt(d, addr), d.scratch, PageNumber(addr), d.rom);
    }

    /** Asks the device to copy its scratchpad, without a MAC. */
    method SendPlainCopy(lo: Byte, hi: Byte, es: Byte) returns (ok: bool)
      requires Valid()
      modifies bus
      ensures Valid() && SameIdentity(old(bus.dev), bus.dev)
      ensures CopyOutcome(old(bus.dev), bus.dev.memory, ok)
      ensures bus.reliable && !old(bus.dev).authenticated && Commanded(old(bus.dev), lo, hi, es) ==> ok
    {
      ok := SendCommand(lo, hi, es);
      if !ok {
        return;
      }
      PhaseDoesNotMatter(old(bus.dev), old(bus.dev).(phase := Idle));
      ok := Confirmed();
    }

    /** copySpadWP: the copy of the write-protected part, after reading the scratchpad back. */
    method CopySpadWP() returns (ok: bool)
      requires Valid()
      modifies bus, crc.utilcrc16
      ensures Valid() && SameIdentity(old(bus.dev), bus.dev)
      ensures CopyOutcome(old(bus.dev), bus.dev.memory, ok)
      ensures bus.reliable && !old(bus.dev).authenticated && old(bus.dev).target < MEMORY ==> ok
    {
      ghost var d := bus.dev;
      var lo, hi, es, scratch;
      ok, lo, hi, es, scratch := ReadSpad();
      if !ok {
        return;
      }
      PhaseDoesNotMatter(d, d.(phase := Idle));
      ok := SendPlainCopy(lo, hi, es);
    }

    /** The device takes this kind of copy: with a MAC, the host shares its secret and serial number. */
    ghost predicate Trusted(d: Device, rom: seq<Byte>, mac: bool)
      reads this
    {
      d.authenticated == mac && (mac ==> d.secret == localSecret && d.rom == rom)
    }

    /** Writes one row to the scratchpad and has it copied, with a MAC or without. */
    method WriteRow(mac: bool, addr: nat, rawBuf: seq<Byte>, rom: seq<Byte>, memory: seq<Byte>, ghost cur: nat,
                    ghost chunk: seq<Byte>)
        returns (ok: bool)
      requires Valid() && |rom| == 8 && |memory| >= 32 && RowReady(bus.dev.memory, addr, rawBuf, cur, chunk)
      modifies bus, crc.utilcrc16
      ensures Valid() && SameIdentity(old(bus.dev), bus.dev)
      ensures ok ==> bus.dev.memory == Splice(old(bus.dev.memory), cur, chunk)
      ensures !ok ==> bus.dev.memory == old(bus.dev.memory) || bus.dev.memory == Splice(old(bus.dev.memory), cur, chunk)
      ensures bus.reliable && Trusted(old(bus.dev), rom, mac) && memory[..32] == PageAt(old(bus.dev), addr) ==> ok
    {
      ok := WriteSpad(addr, rawBuf);
      if !ok {
        return;
      }
      RowCopyIsChunk(bus.dev, bus.dev.memory, cur, chunk);
      ghost var d := bus.dev;
      assert PageAt(d, addr) == PageAt(old(bus.dev), addr);
      assert memory[..32][..28] == memory[..28];
      if mac {
        ok := CopySpad(addr, rom, memory);
      } else {
        ok := CopySpadWP();
      }
    }

    /** Makes the host's copy hold the page of offset p: past the first page it is read again. */
    method FreshenPage(start: nat, pages: nat, p: nat, memory: array<Byte>) returns (ok: bool)
      requires Valid() && start + PAGE_LENGTH * pages <= MEMORY && memory.Length == 64 && Apart(memory)
               && p < PAGE_LENGTH * pages <= 64
      requires p < PAGE_LENGTH ==> memory[..32] == bus.dev.memory[start..start + 32]
      modifies bus, memory
      ensures Valid() && bus.dev.memory == old(bus.dev.memory) && SameIdentity(old(bus.dev), bus.dev)
      ensures ok ==> var at := start + (if p >= 32 then 32 else 0); memory[..32] == bus.dev.memory[at..at + 32]
      ensures bus.reliable ==> ok
    {
      ok := true;
      if p >= PAGE_LENGTH {
        var page;
        ok, page := Read(start, pages, p / PAGE_LENGTH * PAGE_LENGTH, false, PAGE_LENGTH);
        if ok {
          CopyInto(memory, 0, page);
        }
      }
    }

    /** Builds the row of offset strAdd + startx from the host's copy of its page. */
    method FillRow(start: nat, strAdd: nat, buff: seq<Byte>, startx: nat, nextx: nat, memory: array<Byte>,
                   ghost addr: nat) returns (rawBuf: seq<Byte>)
      requires Valid() && memory.Length == 64 && startx < nextx <= |buff| && nextx - startx <= 8 - (strAdd + startx) % 8
      requires var p := strAdd + startx;
               var at := start + (if p >= PAGE_LENGTH then 32 else 0);
               && p < 64 && at + 32 <= MEMORY && addr == start + p - p % 8 && addr % 8 == 0
               && at == addr / 32 * 32 && addr == at + RowBase(p) && memory[..32] == bus.dev.memory[at..at + 32]
      ensures addr < MEMORY && PageAt(bus.dev, addr) == memory[..32]
              && RowReady(bus.dev.memory, addr, rawBuf, start + strAdd + startx, buff[startx..nextx])
      ensures strAdd + startx < PAGE_LENGTH ==> RowOfCopy(memory[..], strAdd + startx, rawBuf, buff[startx..nextx])
    {
      var p := strAdd + startx;
      rawBuf := BuildRow(memory, RowBase(p), strAdd, buff, startx, nextx);
      assert memory[..][RowBase(p)..RowBase(p) + 8] == memory[RowBase(p)..RowBase(p) + 8];
      RowOfPage(bus.dev, memory[..], start + (if p >= PAGE_LENGTH then 32 else 0), RowBase(p), addr, p % 8,
                buff[startx..nextx], rawBuf);
    }

    /** First half of a turn: room, page copy and row buffer for the byte at offset strAdd + startx. */
    method PrepareRow(start: nat, pages: nat, strAdd: nat, buff: seq<Byte>, startx: nat, memory: array<Byte>)
        returns (ok: bool, nextx: nat, addr: nat, rawBuf: seq<Byte>)
      requires Valid() && memory.Length == 64 && Apart(memory) && start % 32 == 0 && 1 <= pages <= 2
      requires start + PAGE_LENGTH * pages <= MEMORY && startx < |buff| && strAdd + |buff| <= PAGE_LENGTH * pages
      requires strAdd + startx < PAGE_LENGTH ==> memory[..32] == bus.dev.memory[start..start + 32]
      modifies bus, memory
      ensures Valid() && bus.dev.memory == old(bus.dev.memory) && SameIdentity(old(bus.dev), bus.dev)
      ensures startx < nextx <= |buff| && nextx - startx <= 8 - (strAdd + startx) % 8
      ensures ok ==> addr < MEMORY && PageAt(bus.dev, addr) == memory[..32]
                     && RowReady(bus.dev.memory, addr, rawBuf, start + strAdd + startx, buff[startx..nextx])
      ensures ok && strAdd + nextx < PAGE_LENGTH ==>
                memory[..32] == bus.dev.memory[start..start + 32]
                    && RowOfCopy(memory[..], strAdd + startx, rawBuf, buff[startx..nextx])
      ensures bus.reliable ==> ok
    {
      var len, absAddr, p := |buff|, start + strAdd, strAdd + startx;
      var roomLeft := 8 - (absAddr + startx) % 8;
      nextx := if len - startx > roomLeft then startx + roomLeft else len;
      var base := RowBase(p);
      addr, rawBuf := absAddr + startx + roomLeft - 8, [];
      RowPlace(start, p, base, addr, roomLeft);
      ok := FreshenPage(start, pages, p, memory);
      if !ok {
        return;
      }
      rawBuf := FillRow(start, strAdd, buff, startx, nextx, memory, addr);
    }

    /** One turn of the row loop: the row is prepared, sent to the scratchpad and copied, and the
        host's copy of the page follows. */
    method TurnRow(mac: bool, start: nat, pages: nat, rom: seq<Byte>, strAdd: nat, buff: seq<Byte>, startx: nat,
                   memory: array<Byte>)
        returns (ok: bool, nextx: nat)
      requires Valid() && |rom| == 8 && memory.Length == 64 && Apart(memory) && start % 32 == 0 && 1 <= pages <= 2
      requires start + PAGE_LENGTH * pages <= MEMORY && startx < |buff| && strAdd + |buff| <= PAGE_LENGTH * pages
      requires strAdd + startx < PAGE_LENGTH ==> memory[..32] == bus.dev.memory[start..start + 32]
      modifies bus, crc.utilcrc16, memory
      ensures Valid() && SameIdentity(old(bus.dev), bus.dev) && startx < nextx <= |buff|
      ensures ok ==> bus.dev.memory == Splice(old(bus.dev.memory), start + strAdd + startx, buff[startx..nextx])
                     && (strAdd + nextx < PAGE_LENGTH ==> memory[..32] == bus.dev.memory[start..start + 32])
      ensures !ok ==> bus.dev.memory == old(bus.dev.memory)
                      || bus.dev.memory == Splice(old(bus.dev.memory), start + strAdd + startx, buff[startx..nextx])
      ensures bus.reliable && Trusted(old(bus.dev), rom, mac) ==> ok
    {
      var addr, rawBuf;
      ok, nextx, addr, rawBuf := PrepareRow(start, pages, strAdd, buff, startx, memory);
      if !ok {
        return;
      }
      var p := strAdd + startx;
      ghost var mem, chunk := bus.dev.memory, buff[startx..nextx];
      ok := WriteRow(mac, addr, rawBuf, rom, memory[..], start + p, chunk);
      if !ok {
        return;
      }
      StoreRow(strAdd, p, memory, rawBuf, start, mem, chunk);
    }

    /** Second half of the bookkeeping: the host's copy of the page takes the written row. */
    method StoreRow(strAdd: nat, p: nat, memory: array<Byte>, rawBuf: seq<Byte>, ghost start: nat,
                    ghost mem: seq<Byte>, ghost chunk: seq<Byte>)
      requires memory.Length == 64 && |rawBuf| == 8 && strAdd <= p < 64 && |mem| == MEMORY && start + 32 <= MEMORY
      requires p + |chunk| < PAGE_LENGTH ==>
               memory[..32] == mem[start..start + 32] && RowOfCopy(memory[..], p, rawBuf, chunk)
      modifies memory
      ensures p + |chunk| < PAGE_LENGTH ==> memory[..32] == Splice(mem, start + p, chunk)[start..start + 32]
    {
      ghost var copy := memory[..];
      CopyInto(memory, StoreIndex(strAdd, p), rawBuf);
      if p + |chunk| < PAGE_LENGTH {
        HostCopyFollows(mem, start, RowBase(p), p % 8, chunk, copy);
        assert start + RowBase(p) + p % 8 == start + p;
      }
    }

    /** The row loop. */
    method WriteRows(mac: bool, start: nat, pages: nat, rom: seq<Byte>, strAdd: nat, buff: seq<Byte>,
                     memory: array<Byte>) returns (ok: bool)
      requires Valid() && |rom| == 8 && memory.Length == 64 && Apart(memory) && start % 32 == 0 && 1 <= pages <= 2
      requires start + PAGE_LENGTH * pages <= MEMORY && strAdd + |buff| <= PAGE_LENGTH * pages
      requires strAdd < PAGE_LENGTH ==> memory[..32] == bus.dev.memory[start..start + 32]
      modifies bus, crc.utilcrc16, memory
      ensures Valid() && SameIdentity(old(bus.dev), bus.dev)
      ensures PrefixWritten(old(bus.dev.memory), start + strAdd, buff, bus.dev.memory)
      ensures ok ==> bus.dev.memory == Splice(old(bus.dev.memory), start + strAdd, buff)
      ensures bus.reliable && Trusted(old(bus.dev), rom, mac) ==> ok
    {
      var startx, nextx := 0, 0;
      ghost var mem0, at := bus.dev.memory, start + strAdd;
      SpliceNothing(mem0, at);
      assert WrittenUpTo(mem0, at, buff, 0, mem0);
      while startx < |buff|
        invariant 0 <= startx <= |buff|
        invariant Valid() && SameIdentity(old(bus.dev), bus.dev)
        invariant WrittenUpTo(mem0, at, buff, startx, bus.dev.memory)
        invariant strAdd + startx < PAGE_LENGTH ==> memory[..32] == bus.dev.memory[start..start + 32]
      {
        ghost var mem := bus.dev.memory;
        ok, nextx := TurnRow(mac, start, pages, rom, strAdd, buff, startx, memory);
        ChunkExtends(mem0, at, buff, startx, nextx, mem);
        if !ok {
          return;
        }
        startx := nextx;
      }
      assert buff[..startx] == buff;
      ok := true;
    }

    /** What both writers do once the request is accepted: load the first page, run the row loop. */
    method WriteBank(mac: bool, start: nat, pages: nat, rom: seq<Byte>, strAdd: nat, buff: seq<Byte>) returns (ok: bool)
      requires Valid() && |rom| == 8 && start % 32 == 0 && 1 <= pages <= 2 && start + PAGE_LENGTH * pages <= MEMORY
      requires buff != [] && strAdd + |buff| <= PAGE_LENGTH * pages
      modifies bus, crc.utilcrc16
      ensures Valid() && SameIdentity(old(bus.dev), bus.dev)
      ensures PrefixWritten(old(bus.dev.memory), start + strAdd, buff, bus.dev.memory)
      ensures ok ==> bus.dev.memory == Splice(old(bus.dev.memory), start + strAdd, buff)
      ensures bus.reliable && Trusted(old(bus.dev), rom, mac) ==> ok
    {
      var memory := new Byte[64];
      var page;
      ok, page := Read(start, pages, strAdd / PAGE_LENGTH * PAGE_LENGTH, false, PAGE_LENGTH);
      if !ok {
        SpliceNothing(bus.dev.memory, start + strAdd);
        assert WrittenUpTo(bus.dev.memory, start + strAdd, buff, 0, bus.dev.memory);
        return;
      }
      CopyInto(memory, 0, page);
      ok := WriteRows(mac, start, pages, rom, strAdd, buff, memory);
    }

    /** writeSHAEE on the data banks: aligned 8-byte rows, each read, overlaid and copied back
        under a MAC over the host's copy of the page. Whatever fails, the device then holds a
        prefix of the buffer spliced in and nothing else; on a reliable bus with the right
        secret nothing fails. */
    method WriteSHAEE(bank: nat, rom: seq<Byte>, strAdd: nat, buff: seq<Byte>, readOnly: bool) returns (ok: bool)
      requires Valid() && bank <= 2 && |rom| == 8
      modifies bus, crc.utilcrc16
      ensures Valid() && SameIdentity(old(bus.dev), bus.dev)
      ensures !InRange(SizeSHAEE(bank), strAdd, buff, readOnly) ==>
              ok == (buff == []) && bus.dev.memory == old(bus.dev.memory)
      ensures InRange(SizeSHAEE(bank), strAdd, buff, readOnly) ==>
                && PrefixWritten(old(bus.dev.memory), StartSHAEE(bank) + strAdd, buff, bus.dev.memory)
                && (ok ==> bus.dev.memory == Splice(old(bus.dev.memory), StartSHAEE(bank) + strAdd, buff))
                && (bus.reliable && Trusted(old(bus.dev), rom, true) ==> ok)
      ensures var fits := strAdd + |buff| <= (if bank == 2 then 64 else 32) && !readOnly;
              && ReplacedFrom(old(bus.dev.memory), 32 * bank + strAdd, buff, fits, ok, bus.dev.memory)
              && (bus.reliable && Trusted(old(bus.dev), rom, true) && fits ==> ok)
    {
      if |buff| == 0 {
        return true;
      }
      if strAdd + |buff| > SizeSHAEE(bank) {
        return false;
      }
      if readOnly {
        return false;
      }
      ok := WriteBank(true, StartSHAEE(bank), PagesSHAEE(bank), rom, strAdd, buff);
      WrittenFrom(old(bus.dev.memory), 32 * bank + strAdd, buff, ok, bus.dev.memory);
    }

    /** writeEEWP: the same loop on banks of one page, copied without a MAC. */
    method WriteEEWP(bank: nat, rom: seq<Byte>, strAdd: nat, buff: seq<Byte>) returns (ok: bool)
      requires Valid() && |rom| == 8
      modifies bus, crc.utilcrc16
      ensures Valid() && SameIdentity(old(bus.dev), bus.dev)
      ensures !InRange(PAGE_LENGTH, strAdd, buff, false) ==> ok == (buff == []) && bus.dev.memory == old(bus.dev.memory)
      ensures InRange(PAGE_LENGTH, strAdd, buff, false) ==>
                && PrefixWritten(old(bus.dev.memory), StartEEWP(bank) + strAdd, buff, bus.dev.memory)
                && (ok ==> bus.dev.memory == Splice(old(bus.dev.memory), StartEEWP(bank) + strAdd, buff))
                && (bus.reliable && Trusted(old(bus.dev), rom, false) ==> ok)
      ensures var fits, at := strAdd + |buff| <= 32, (if bank <= 4 then 32 * bank else 0) + strAdd;
              && ReplacedFrom(old(bus.dev.memory), at, buff, fits, ok, bus.dev.memory)
              && (bus.reliable && Trusted(old(bus.dev), rom, false) && fits ==> ok)
    {
      if |buff| == 0 {
        return true;
      }
      if strAdd + |buff| > PAGE_LENGTH {
        return false;
      }
      ok := WriteBank(false, StartEEWP(bank), 1, rom, strAdd, buff);
      WrittenFrom(old(bus.dev.memory), StartEEWP(bank) + strAdd, buff, ok, bus.dev.memory);
    }
  }
}
