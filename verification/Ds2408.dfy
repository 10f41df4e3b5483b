/** The reading side of the DS2408 driver (ds2408.c): register and channel reads, accepted by
    comparing the computed CRC with the inverted one received. */
module Ds2408 {
  import opened Bytes
  import opened CrcLaws
  import opened CrcUtil

  const COMMAND_READ_PIO_REGISTERS: Byte := 0xF0
  const COMMAND_CHANNEL_ACCESS_READ: Byte := 0xF5
  const FIRST_PAGE := 0x88
  const LAST_USEFUL_PAGE := 0x8D
  const LAST_PAGE := 0x8F
  const NUM_PAGES := 8
  const NUM_USEFUL_PAGES := 6
  const MAX_BYTES_IN_CHANNEL_ACCESS := 32

  /** What the device puts on the bus for a register read from a page on. */
  function RegisterFrame(registers: seq<Byte>, page: nat): (f: seq<Byte>)
    requires |registers| == NUM_PAGES && FIRST_PAGE <= page <= LAST_PAGE
    ensures |f| == LAST_PAGE - page + 6
  {
    WithCrc([COMMAND_READ_PIO_REGISTERS, AddrLow(page), AddrHigh(page)] + registers[page - FIRST_PAGE..])
  }

  /** What it puts there for a channel read: the pin states at 32 instants. */
  function ChannelFrame(samples: seq<Byte>): (f: seq<Byte>)
    requires |samples| == MAX_BYTES_IN_CHANNEL_ACCESS
    ensures |f| == MAX_BYTES_IN_CHANNEL_ACCESS + 3
  {
    WithCrc([COMMAND_CHANNEL_ACCESS_READ] + samples)
  }

  /** Those frames byte by byte: 0xF0, the address of the page, low byte first, and the registers from there up
      to 0x8F; or 0xF5 and the samples. */
  lemma FramesByByte(registers: seq<Byte>, page: nat, samples: seq<Byte>)
    requires |registers| == 8 && 0x88 <= page <= 0x8F && |samples| == 32
    ensures var f := RegisterFrame(registers, page);
            && |f| == 0x90 - page + 5 && f[0] == 0xF0 && f[1] as nat + 256 * (f[2] as nat) == page
            && f[3..|f| - 2] == registers[page - 0x88..]
    ensures var f := ChannelFrame(samples);
            |f| == 35 && f[0] == 0xF5 && f[1..33] == samples
  {
    AddressRoundTrip(page);
  }

  /** What arrives of a frame: the bus may fail, or damage it inside sixteen consecutive bits. */
  datatype Reply = NoAccess | NoBlock | Received(bytes: seq<Byte>)

  ghost predicate FromFrame(reply: Reply, frame: seq<Byte>) {
    reply.Received? ==> exists j: nat :: DifferWithin(frame, reply.bytes, j)
  }

  /** Byte k of a buffer that a frame has been read into. */
  function BufferAt(frame: seq<Byte>, stale: seq<Byte>, k: nat): Byte
    requires |frame| <= |stale| && k < |stale|
  {
    if k < |frame| then frame[k] else stale[k]
  }

  class Driver {
    const crc: CrcUnit
    const portNumber: nat

    ghost predicate Valid()
    {
      crc.Valid() && portNumber < MAX_PORTNUM
    }

    constructor (crc: CrcUnit, portNumber: nat)
      requires crc.Valid() && portNumber < MAX_PORTNUM
      ensures Valid() && this.crc == crc
    {
      this.crc := crc;
      this.portNumber := portNumber;
    }

    /** The test both reads make of a block read back. */
    method CrcMatches(buffer: seq<Byte>) returns (success: bool)
      requires Valid() && |buffer| >= 2
      modifies crc.utilcrc16
      ensures success <==> Crc16(0, buffer) == 0xB001
    {
      var count := |buffer|;
      var lastCrc16 := crc.RunCrc16(portNumber, 0, buffer[..count - 2]);
      success := Xor(lastCrc16, Join(buffer[count - 2], buffer[count - 1])) == 0xFFFF;
      TestsAgree(0, buffer[..count - 2], buffer[count - 2], buffer[count - 1]);
      assert buffer == buffer[..count - 2] + [buffer[count - 2], buffer[count - 1]];
    }

    /** readMemoryDS2408: `stale` is what the rest of the 13-byte buffer holds. What has arrived is accepted
        by its residue, and handed out from behind the address on. If it came from the device's frame, damaged
        at most inside sixteen bits, a success hands out the registers from the page on, as far as there
        are any; asked for more, it goes on with the two CRC bytes and what lies behind them. */
    method ReadMemory(reply: Reply, ghost registers: seq<Byte>, page: nat, size: nat, stale: seq<Byte>)
        returns (success: bool, mem: seq<Byte>)
      requires Valid() && |registers| == NUM_PAGES && FIRST_PAGE <= page <= LAST_USEFUL_PAGE && size <= NUM_USEFUL_PAGES
      requires |stale| == NUM_PAGES + 5 && (reply.Received? ==> |reply.bytes| == LAST_PAGE - page + 6)
      modifies crc.utilcrc16
      ensures success <==> reply.Received? && Crc16(0, reply.bytes) == 0xB001
      ensures success ==> |mem| == size && forall i | 0 <= i < size :: mem[i] == BufferAt(reply.bytes, stale, 3 + i)
      ensures FromFrame(reply, RegisterFrame(registers, page)) ==>
                && (success <==> reply == Received(RegisterFrame(registers, page)))
                && (success ==>
                      forall i | 0 <= i < size && i <= LAST_PAGE - page :: mem[i] == registers[page - FIRST_PAGE + i])
    {
      mem := [];
      if !reply.Received? {
        return false, mem;
      }
      success := CrcMatches(reply.bytes);
      if success {
        var buffer := reply.bytes + stale[|reply.bytes|..];
        mem := buffer[3..3 + size];
        assert forall i | 0 <= i < size :: mem[i] == BufferAt(reply.bytes, stale, 3 + i);
      }
      RegistersArrive(reply, registers, page);
      ghost var frame, rest := RegisterFrame(registers, page), registers[page - FIRST_PAGE..];
      assert forall i | 0 <= i < |rest| :: rest[i] == frame[3..|frame| - 2][i] == frame[3 + i];
    }

    /** channelAccessReadDS2408: the number of bytes handed out, 0 if the frame was not accepted. */
    method ChannelAccessRead(reply: Reply, ghost samples: seq<Byte>, numBytesToRead: nat)
        returns (bytesRead: nat, data: seq<Byte>)
      requires Valid() && |samples| == MAX_BYTES_IN_CHANNEL_ACCESS && numBytesToRead <= MAX_BYTES_IN_CHANNEL_ACCESS
      requires reply.Received? ==> |reply.bytes| == MAX_BYTES_IN_CHANNEL_ACCESS + 3
      modifies crc.utilcrc16
      ensures bytesRead == if reply.Received? && Crc16(0, reply.bytes) == 0xB001 then numBytesToRead else 0
      ensures FromFrame(reply, ChannelFrame(samples)) ==>
                && bytesRead == (if reply == Received(ChannelFrame(samples)) then numBytesToRead else 0)
                && data == samples[..bytesRead]
    {
      bytesRead, data := 0, [];
      if !reply.Received? {
        return;
      }
      var success := CrcMatches(reply.bytes);
      if success {
        bytesRead := MAX_BYTES_IN_CHANNEL_ACCESS;
        if bytesRead > numBytesToRead {
          bytesRead := numBytesToRead;
        }
        data := reply.bytes[1..1 + numBytesToRead];
      }
      SamplesArrive(reply, samples, numBytesToRead);
    }
  }

  /** A frame of registers that arrives, damaged or not, is accepted exactly when undamaged. */
  lemma RegistersArrive(reply: Reply, registers: seq<Byte>, page: nat)
    requires |registers| == NUM_PAGES && FIRST_PAGE <= page <= LAST_USEFUL_PAGE && reply.Received?
    ensures var frame := RegisterFrame(registers, page);
            && (FromFrame(reply, frame) ==> (Crc16(0, reply.bytes) == 0xB001 <==> reply.bytes == frame))
            && frame[3..|frame| - 2] == registers[page - FIRST_PAGE..]
  {
    var body := [COMMAND_READ_PIO_REGISTERS, AddrLow(page), AddrHigh(page)] + registers[page - FIRST_PAGE..];
    if FromFrame(reply, WithCrc(body)) {
      var j: nat :| DifferWithin(WithCrc(body), reply.bytes, j);
      DamagedFrameIsRefused(body, reply.bytes, j);
    }
    assert body[3..] == registers[page - FIRST_PAGE..];
  }

  lemma SamplesArrive(reply: Reply, samples: seq<Byte>, n: nat)
    requires |samples| == MAX_BYTES_IN_CHANNEL_ACCESS && n <= MAX_BYTES_IN_CHANNEL_ACCESS && reply.Received?
    ensures var frame := ChannelFrame(samples);
            && (FromFrame(reply, frame) ==> (Crc16(0, reply.bytes) == 0xB001 <==> reply.bytes == frame))
            && frame[1..1 + n] == samples[..n]
  {
    var body := [COMMAND_CHANNEL_ACCESS_READ] + samples;
    if FromFrame(reply, WithCrc(body)) {
      var j: nat :| DifferWithin(WithCrc(body), reply.bytes, j);
      DamagedFrameIsRefused(body, reply.bytes, j);
    }
    assert body[1..1 + n] == samples[..n];
  }
}
