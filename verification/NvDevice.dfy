/** The environment of the paged memory banks: a device with a 32-byte scratchpad, a target
    address and an ending offset, and the bus that carries blocks to it. The scratchpad is read
    from the target's offset on; a copy is obeyed only when it repeats target and ending offset. */
module NvDevice {
  import opened Bytes
  import opened Splices

  const PAGE := 32
  const READ_MEMORY: Byte := 0xF0
  const WRITE_SCRATCHPAD: Byte := 0x0F
  const READ_SCRATCHPAD: Byte := 0xAA
  const COPY_SCRATCHPAD: Byte := 0x55

  datatype Phase = Idle | Reading(at: nat) | ReadingScratch

  datatype Device = Device(memory: seq<Byte>, scratch: seq<Byte>, target: nat, es: nat, phase: Phase)

  predicate ValidDevice(d: Device) {
    |d.memory| < 0x10000 && |d.scratch| == PAGE && d.target < 0x10000 && d.es < PAGE
  }

  /** The scratchpad from the target's offset to the ending offset, and whether it fits the memory. */
  predicate CanCopy(d: Device) {
    ValidDevice(d) && d.target % PAGE <= d.es && d.target - d.target % PAGE + d.es < |d.memory|
  }

  function Copied(d: Device): (m: seq<Byte>)
    requires CanCopy(d)
    ensures |m| == |d.memory|
  {
    Splice(d.memory, d.target, d.scratch[d.target % PAGE..d.es + 1])
  }

  /** The first n bytes of a stretch, continued by an idle bus. */
  function Padded(s: seq<Byte>, n: nat): (r: seq<Byte>)
    ensures |r| == n && forall i | 0 <= i < n && i < |s| :: r[i] == s[i]
  {
    seq(n, i requires 0 <= i < n => if i < |s| then s[i] else 0xFF)
  }

  /** Reaction to a scratchpad write: the data lands from the target's offset on. */
  function Loaded(d: Device, target: nat, data: seq<Byte>): (e: Device)
    requires ValidDevice(d) && target < 0x10000 && 0 < |data| <= PAGE - target % PAGE
    ensures ValidDevice(e)
  {
    d.(target := target, scratch := Splice(d.scratch, target % PAGE, data), es := target % PAGE + |data| - 1)
  }

  /** Reaction to a command block. */
  function Command(d: Device, sent: seq<Byte>): (r: (Device, seq<Byte>))
    requires ValidDevice(d) && d.phase == Idle
    ensures ValidDevice(r.0) && |r.1| == |sent|
  {
    if |sent| >= 4 && sent[0] == WRITE_SCRATCHPAD then
      var target := TargetOf(sent[1], sent[2]);
      if |sent| - 3 <= PAGE - target % PAGE then (Loaded(d, target, sent[3..]), sent) else (d, sent)
    else if |sent| == 4 && sent[0] == READ_SCRATCHPAD then
      (d.(phase := ReadingScratch), [READ_SCRATCHPAD, AddrLow(d.target), AddrHigh(d.target), OctetOf(d.es)])
    else if |sent| == 3 && sent[0] == READ_MEMORY then
      (d.(phase := Reading(TargetOf(sent[1], sent[2]))), sent)
    else if |sent| == 5 && sent[0] == COPY_SCRATCHPAD && CanCopy(d)
            && TargetOf(sent[1], sent[2]) == d.target && sent[3] == OctetOf(d.es) then
      (d.(memory := Copied(d)), sent[..4] + [0x00])
    else (d, sent)
  }

  /** The device's reaction to a block: its next state and the block as the host reads it back. */
  function Respond(d: Device, sent: seq<Byte>): (r: (Device, seq<Byte>))
    requires ValidDevice(d)
    ensures ValidDevice(r.0) && |r.1| == |sent|
  {
    match d.phase
    case Idle => Command(d, sent)
    case Reading(at) =>
      if at + |sent| <= |d.memory| then (d.(phase := Reading(at + |sent|)), d.memory[at..at + |sent|]) else (d, sent)
    case ReadingScratch => (d, Padded(d.scratch[d.target % PAGE..], |sent|))
  }

  /** What the device makes of the blocks that are sent, by their bytes: 0x0F puts what follows into the
      scratchpad, from the offset of the address in its page on; */
  lemma LoadByByte(d: Device, sent: seq<Byte>)
    requires ValidDevice(d) && d.phase == Idle && |sent| >= 4 && sent[0] == 0x0F
    ensures var at, e := sent[1] as nat + 256 * (sent[2] as nat), Respond(d, sent).0;
            |sent| - 3 <= 32 - at % 32 ==>
              && e == d.(target := at, scratch := e.scratch, es := at % 32 + |sent| - 4)
              && Replaced(d.scratch, at % 32, sent[3..], e.scratch)
  {
    var at := TargetOf(sent[1], sent[2]);
    if |sent| - 3 <= 32 - at % 32 {
      LoadedByByte(d, at, sent[3..]);
      assert Respond(d, sent).0 == Loaded(d, at, sent[3..]);
    }
  }

  lemma LoadedByByte(d: Device, at: nat, data: seq<Byte>)
    requires ValidDevice(d) && at < 0x10000 && 0 < |data| <= 32 - at % 32
    ensures var e := Loaded(d, at, data);
            && e == d.(target := at, scratch := e.scratch, es := at % 32 + |data| - 1)
            && Replaced(d.scratch, at % 32, data, e.scratch)
  {
    SpliceReplaces(d.scratch, at % 32, data);
  }

  /** 0xAA hands out address, low byte first, and ending offset, and then the scratchpad from that offset on;
      0xF0 sets where reading starts; */
  lemma ReadByByte(d: Device, sent: seq<Byte>)
    requires ValidDevice(d) && d.phase == Idle && |sent| >= 3
    ensures |sent| == 3 && sent[0] == 0xF0 ==>
              Respond(d, sent).0 == d.(phase := Reading(sent[1] as nat + 256 * (sent[2] as nat)))
    ensures |sent| == 4 && sent[0] == 0xAA ==>
              var r := Respond(d, sent).1;
              && Respond(d, sent).0 == d.(phase := ReadingScratch)
              && r[1] as nat + 256 * (r[2] as nat) == d.target && r[3] as nat == d.es
  {
    AddressRoundTrip(d.target);
  }

  /** and 0x55 copies, if address and ending offset are those on record. */
  lemma CopyByByte(d: Device, sent: seq<Byte>)
    requires ValidDevice(d) && d.phase == Idle && |sent| == 5 && sent[0] == 0x55 && CanCopy(d)
    ensures Respond(d, sent) ==
              if sent[1] as nat + 256 * (sent[2] as nat) == d.target && sent[3] as nat == d.es then
                (d.(memory := Copied(d)), sent[..4] + [0x00])
              else (d, sent)
  {
    SameNumber(sent[3], d.es);
  }

  lemma SameNumber(b: Byte, n: nat)
    requires n < 256
    ensures b == OctetOf(n) <==> b as nat == n
  {
    assert OctetOf(n) as nat == n;
  }

  /** What copying does to the memory, byte by byte: from the target to the ending offset in its page the
      scratchpad lands, and nothing else changes. */
  lemma CopiedByByte(d: Device, i: nat)
    requires CanCopy(d) && i < |d.memory|
    ensures Copied(d)[i] == if d.target <= i && i / 32 == d.target / 32 && i % 32 <= d.es then d.scratch[i % 32]
            else d.memory[i]
  {
    var q, r := d.target / 32, d.target % 32;
    assert d.target == 32 * q + r && i == 32 * (i / 32) + i % 32;
    assert d.target <= i <= 32 * q + d.es ==> i / 32 == q;
  }

  /** What may reach an idle device in place of a block: the block, or, when the block loads the
      scratchpad, the same command followed by any other bytes of the same number. */
  predicate MayHear(d: Device, sent: seq<Byte>, heard: seq<Byte>) {
    heard == sent
    || (d.phase == Idle && |heard| == |sent| >= 4 && heard[0] == sent[0] == WRITE_SCRATCHPAD)
  }

  /** The bus: when it is not reliable any access or block may fail, reached or not, and any
      scratchpad load may arrive garbled. */
  class Bus {
    const reliable: bool
    var dev: Device

    ghost predicate Valid()
      reads this
    {
      ValidDevice(dev)
    }

    constructor (reliable: bool, dev: Device)
      requires ValidDevice(dev)
      ensures Valid() && this.reliable == reliable && this.dev == dev
    {
      this.reliable := reliable;
      this.dev := dev;
    }

    /** Selects the device, which then waits for a command. */
    method Access() returns (ok: bool)
      requires Valid()
      modifies this
      ensures Valid() && (reliable ==> ok)
      ensures dev == if ok then old(dev).(phase := Idle) else old(dev)
    {
      ok := reliable;
      if !ok { ok := *; }
      if ok {
        dev := dev.(phase := Idle);
      }
    }

    /** Sends a block and reads it back. After a failure the device may have seen it or not. */
    method Block(sent: seq<Byte>) returns (ok: bool, reply: seq<Byte>, ghost heard: seq<Byte>)
      requires Valid()
      modifies this
      ensures Valid() && MayHear(old(dev), sent, heard) && (reliable ==> ok && heard == sent)
      ensures ok ==> dev == Respond(old(dev), heard).0 && reply == Respond(old(dev), heard).1
      ensures !ok ==> dev == old(dev) || dev == Respond(old(dev), heard).0
    {
      ok := reliable;
      if !ok { ok := *; }
      var arrives := sent;
      if !reliable { arrives := *; }
      if !MayHear(dev, sent, arrives) {
        arrives := sent;
      }
      heard := arrives;
      reply := sent;
      var seen := ok;
      if !seen { seen := *; }
      if seen {
        reply := Respond(dev, arrives).1;
        dev := Respond(dev, arrives).0;
      }
    }
  }
}
