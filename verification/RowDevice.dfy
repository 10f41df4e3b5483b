/** The environment of the row-wise memory banks: an EEPROM device with an 8-byte scratchpad,
    and the bus that carries blocks to it. The device is a value and its reaction to a block a
    function; the bus either delivers a block faithfully or reports a failure. */
module RowDevice {
  import opened Bytes
  import opened CrcUtil
  import opened CrcLaws
  import opened Sha1
  import opened Splices

  const MEMORY := 160
  const READ_MEMORY: Byte := 0xF0
  const WRITE_SCRATCHPAD: Byte := 0x0F
  const READ_SCRATCHPAD: Byte := 0xAA
  const COPY_SCRATCHPAD: Byte := 0x55
  const ENDING: Byte := 0x07

  datatype Phase = Idle | Reading(at: nat) | AwaitMac | Answer(code: Byte)

  datatype Device = Device(memory: seq<Byte>, secret: seq<Byte>, rom: seq<Byte>, authenticated: bool,
                           target: nat, scratch: seq<Byte>, es: Byte, phase: Phase)

  predicate ValidDevice(d: Device) {
    |d.memory| == MEMORY && |d.secret| == 8 && |d.rom| == 8 && |d.scratch| == 8 && d.target < 0x10000
  }

  /** The row the device copies the scratchpad to. */
  function RowOf(a: nat): nat { a - a % 8 }

  /** The 32-byte page an address lies in. */
  function PageAt(d: Device, a: nat): (p: seq<Byte>)
    requires ValidDevice(d) && a < MEMORY
    ensures |p| == 32
  {
    d.memory[a / 32 * 32..a / 32 * 32 + 32]
  }

  /** The memory after copying the scratchpad. */
  function Copied(d: Device): (m: seq<Byte>)
    requires ValidDevice(d) && d.target < MEMORY
    ensures |m| == MEMORY
  {
    Splice(d.memory, RowOf(d.target), d.scratch)
  }

  /** The MAC the device expects before it copies. */
  function ExpectedMac(d: Device): seq<Byte>
    requires ValidDevice(d) && d.target < MEMORY
  {
    CopyMac(d.secret, PageAt(d, d.target), d.scratch, PageNumber(d.target), d.rom)
  }

  function PageNumber(a: nat): Byte
    requires a < MEMORY
  {
    OctetOf(a / 32)
  }

  /** The device's reaction to a block: its next state and the block as the host reads it back. */
  function Respond(d: Device, sent: seq<Byte>): (r: (Device, seq<Byte>))
    requires ValidDevice(d)
    ensures ValidDevice(r.0) && |r.1| == |sent|
  {
    match d.phase
    case Idle =>
      if |sent| == 13 && sent[0] == WRITE_SCRATCHPAD then
        (d.(target := TargetOf(sent[1], sent[2]), scratch := sent[3..11], es := ENDING), WithCrc(sent[..11]))
      else if |sent| == 14 && sent[0] == READ_SCRATCHPAD then
        (d, WithCrc([READ_SCRATCHPAD, AddrLow(d.target), AddrHigh(d.target), d.es] + d.scratch))
      else if |sent| == 3 && sent[0] == READ_MEMORY then
        (d.(phase := Reading(TargetOf(sent[1], sent[2]))), sent)
      else if |sent| == 4 && sent[0] == COPY_SCRATCHPAD then
        if TargetOf(sent[1], sent[2]) != d.target || sent[3] != d.es
            || d.target >= MEMORY then (d.(phase := Answer(0xFF)), sent)
        else if d.authenticated then (d.(phase := AwaitMac), sent)
        else (d.(memory := Copied(d), phase := Answer(0xAA)), sent)
      else (d, sent)
    case Reading(at) =>
      if at + |sent| <= MEMORY then (d.(phase := Reading(at + |sent|)), d.memory[at..at + |sent|]) else (d, sent)
    case AwaitMac =>
      if d.target < MEMORY && sent == ExpectedMac(d) then (d.(memory := Copied(d), phase := Answer(0xAA)), sent)
      else (d.(phase := Answer(0x00)), sent)
    case Answer(_) => (d, sent)
  }

  /** What the device makes of the blocks that are sent, by their bytes: 0x0F loads the scratchpad, 0xAA hands
      it back behind address and ending offset, 0xF0 sets where reading starts, and 0x55 copies, if address and
      ending offset are those on record. The low byte of an address comes first. */
  lemma BlocksByByte(d: Device, sent: seq<Byte>)
    requires ValidDevice(d) && d.phase == Idle && |sent| >= 3
    ensures var at := sent[1] as nat + 256 * (sent[2] as nat);
            && (|sent| == 13 && sent[0] == 0x0F ==>
                  Respond(d, sent).0 == d.(target := at, scratch := sent[3..11], es := 0x07))
            && (|sent| == 3 && sent[0] == 0xF0 ==> Respond(d, sent).0 == d.(phase := Reading(at)))
            && (|sent| == 4 && sent[0] == 0x55 && at == d.target < MEMORY && sent[3] == d.es ==>
                  Respond(d, sent).0 ==
                    if d.authenticated then d.(phase := AwaitMac)
                    else d.(memory := Copied(d), phase := Answer(0xAA)))
    ensures |sent| == 14 && sent[0] == 0xAA ==>
              var r := Respond(d, sent).1;
              && Respond(d, sent).0 == d && r[1] as nat + 256 * (r[2] as nat) == d.target && r[3] == d.es
              && r[4..12] == d.scratch
  {
    var body := [READ_SCRATCHPAD, AddrLow(d.target), AddrHigh(d.target), d.es] + d.scratch;
    AddressRoundTrip(d.target);
    assert WithCrc(body)[..12] == body && body[4..] == d.scratch;
    assert WithCrc(body)[4..12] == WithCrc(body)[..12][4..];
  }

  /** What copying does to the memory, byte by byte: the eight bytes of the row the target lies in become the
      scratchpad. */
  lemma CopiedByByte(d: Device, i: nat)
    requires ValidDevice(d) && d.target < MEMORY && i < MEMORY
    ensures Copied(d)[i] == if i / 8 == d.target / 8 then d.scratch[i % 8] else d.memory[i]
  {
    assert RowOf(d.target) == d.target / 8 * 8;
  }

  const LOAD := 13

  /** The block loads the scratchpad, and the device hears it as one. */
  predicate IsLoad(d: Device, block: seq<Byte>) {
    d.phase == Idle && |block| == LOAD && block[0] == WRITE_SCRATCHPAD
  }

  /** What may reach the device in place of a block that loads the scratchpad: a load whose address
      and data are damaged inside sixteen consecutive bits. Other blocks arrive whole. */
  predicate MayHear(d: Device, sent: seq<Byte>, heard: seq<Byte>) {
    if IsLoad(d, sent) then IsLoad(d, heard)
        && (exists j | 0 <= j < 8 * LOAD :: DifferWithin(sent[..11], heard[..11], j))
    else heard == sent
  }

  /** What the host reads back: its own bits as it sent them, the rest from the device. */
  function Reply(d: Device, sent: seq<Byte>, heard: seq<Byte>): (r: seq<Byte>)
    requires ValidDevice(d) && |heard| == |sent|
    ensures |r| == |sent|
  {
    if IsLoad(d, sent) then sent[..11] + Respond(d, heard).1[11..] else Respond(d, heard).1
  }

  /** Different words have different inverses, in one byte or the other. */
  lemma InvertedIsInjective(c: Word, d: Word)
    requires c != d
    ensures !(LowOf(Inverted(c)) == LowOf(Inverted(d)) && HighOf(Inverted(c)) == HighOf(Inverted(d)))
  {
  }

  /** A message sent back under the CRC of another is accepted exactly when the two are the same,
      if they differ at most inside sixteen consecutive bits. */
  lemma ForeignCrcIsNoticed(body: seq<Byte>, given: seq<Byte>, j: nat)
    requires DifferWithin(body, given, j)
    ensures Crc16(0, body + WithCrc(given)[|given|..]) == 0xB001 <==> given == body
  {
    var c := Inverted(Crc16(0, given));
    assert WithCrc(given)[|given|..] == [LowOf(c), HighOf(c)];
    ResidueIffInvertedCrc(0, body, LowOf(c), HighOf(c));
    if given != body {
      BurstIsDetected(0, body, given, j);
      InvertedIsInjective(Crc16(0, given), Crc16(0, body));
    }
  }

  /** A load is accepted by its residue exactly when the device heard it undamaged. */
  lemma DamagedLoadIsNoticed(d: Device, sent: seq<Byte>, heard: seq<Byte>)
    requires ValidDevice(d) && IsLoad(d, sent) && (heard == sent || MayHear(d, sent, heard))
    ensures Crc16(0, Reply(d, sent, heard)) == 0xB001 <==> heard[..11] == sent[..11]
  {
    var j := 0;
    if heard != sent {
      j :| 0 <= j < 8 * LOAD && DifferWithin(sent[..11], heard[..11], j);
    }
    ForeignCrcIsNoticed(sent[..11], heard[..11], j);
  }

  /** The device after an undamaged load. */
  function Loaded(d: Device, addr: nat, data: seq<Byte>): Device {
    d.(target := addr, scratch := data, es := ENDING)
  }

  /** A load changes no memory, and one whose residue is accepted has put the data in the scratchpad. */
  lemma LoadIsExact(d: Device, addr: nat, data: seq<Byte>, sent: seq<Byte>, heard: seq<Byte>)
    requires ValidDevice(d) && d.phase == Idle && addr < 0x10000 && |data| == 8
    requires sent == [WRITE_SCRATCHPAD, AddrLow(addr), AddrHigh(addr)] + data + [0xFF, 0xFF]
    requires heard == sent || MayHear(d, sent, heard)
    ensures |heard| == |sent| && (heard == sent ==> Crc16(0, Reply(d, sent, heard)) == 0xB001)
    ensures Crc16(0, Reply(d, sent, heard)) == 0xB001 ==> Respond(d, heard).0 == Loaded(d, addr, data)
    ensures var e := Respond(d, heard).0; e == d.(target := e.target, scratch := e.scratch, es := e.es)
  {
    AddressRoundTrip(addr);
    DamagedLoadIsNoticed(d, sent, heard);
    assert IsLoad(d, heard);
    if heard[..11] == sent[..11] {
      assert heard[1] == heard[..11][1] && heard[2] == heard[..11][2];
      SliceOfPrefix(heard, 11, 3, 11);
      SliceOfPrefix(sent, 11, 3, 11);
      assert sent[3..11] == data;
    }
  }

  /** The bus: when it is not reliable any access or block may fail, reached or not, and any
      scratchpad load may arrive damaged. */
  class Bus {
    const reliable: bool
    var dev: Device

    ghost predicate Valid()
      reads this
    {
      ValidDevice(dev)
    }

    constructor (reliable: bool, dev: Device)
      requires ValidDevice(dev)
      ensures Valid() && this.reliable == reliable && this.dev == dev
    {
      this.reliable := reliable;
      this.dev := dev;
    }

    /** Selects the device, which then waits for a command. */
    method Access() returns (ok: bool)
      requires Valid()
      modifies this
      ensures Valid() && (reliable ==> ok)
      ensures ok ==> dev == old(dev).(phase := Idle)
      ensures !ok ==> dev == old(dev)
    {
      ok := reliable;
      if !ok { ok := *; }
      if ok {
        dev := dev.(phase := Idle);
      }
    }

    /** Sends a block and reads it back. After a failure the device may have seen it or not. */
    method Block(sent: seq<Byte>) returns (ok: bool, reply: seq<Byte>, ghost heard: seq<Byte>)
      requires Valid()
      modifies this
      ensures Valid() && (reliable ==> ok && heard == sent)
      ensures heard == sent || MayHear(old(dev), sent, heard)
      ensures ok ==> dev == Respond(old(dev), heard).0 && reply == Reply(old(dev), sent, heard)
      ensures !ok ==> dev == old(dev) || dev == Respond(old(dev), heard).0
    {
      ok := reliable;
      if !ok { ok := *; }
      var arrives := sent;
      if !reliable { arrives := *; }
      if !MayHear(dev, sent, arrives) {
        arrives := sent;
      }
      heard := arrives;
      reply := sent;
      var seen := ok;
      if !seen { seen := *; }
      if seen {
        reply := Reply(dev, sent, arrives);
        dev := Respond(dev, arrives).0;
      }
    }

    /** Reads one byte: the device's answer, or an idle bus. */
    method ReadByte() returns (b: Byte)
      requires Valid()
      ensures b == if dev.phase.Answer? then dev.phase.code else 0xFF
    {
      b := if dev.phase.Answer? then dev.phase.code else 0xFF;
    }
  }
}
