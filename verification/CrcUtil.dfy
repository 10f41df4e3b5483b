/** The CRC engine of crcutil.c: a parity-trick CRC-16 and a table-driven CRC-8,
    each kept in one accumulator per port. The methods are proved against the
    functions below; what those functions mean is proved in CrcLaws. */
module CrcUtil {
  import opened Bytes


  const MAX_PORTNUM := 16

  /** The 256-entry CRC-8 table, kept as sixteen rows of sixteen. */
  const DSCRC_TABLE: seq<seq<Byte>> :=
    [ [  0, 94,188,226, 97, 63,221,131,194,156,126, 32,163,253, 31, 65],
      [157,195, 33,127,252,162, 64, 30, 95,  1,227,189, 62, 96,130,220],
      [ 35,125,159,193, 66, 28,254,160,225,191, 93,  3,128,222, 60, 98],
      [190,224,  2, 92,223,129, 99, 61,124, 34,192,158, 29, 67,161,255],
      [ 70, 24,250,164, 39,121,155,197,132,218, 56,102,229,187, 89,  7],
      [219,133,103, 57,186,228,  6, 88, 25, 71,165,251,120, 38,196,154],
      [101, 59,217,135,  4, 90,184,230,167,249, 27, 69,198,152,122, 36],
      [248,166, 68, 26,153,199, 37,123, 58,100,134,216, 91,  5,231,185],
      [140,210, 48,110,237,179, 81, 15, 78, 16,242,172, 47,113,147,205],
      [ 17, 79,173,243,112, 46,204,146,211,141,111, 49,178,236, 14, 80],
      [175,241, 19, 77,206,144,114, 44,109, 51,209,143, 12, 82,176,238],
      [ 50,108,142,208, 83, 13,239,177,240,174, 76, 18,145,207, 45,115],
      [202,148,118, 40,171,245, 23, 73,  8, 86,180,234,105, 55,213,139],
      [ 87,  9,235,181, 54,104,138,212,149,203, 41,119,244,170, 72, 22],
      [233,183, 85, 11,136,214, 52,106, 43,117,151,201, 74, 20,246,168],
      [116, 42,200,150, 21, 75,169,247,182,232, 10, 84,215,137,107, 53] ]

  lemma TableShape()
    ensures |DSCRC_TABLE| == 16 && forall r | 0 <= r < 16 :: |DSCRC_TABLE[r]| == 16
  {
  }

  /** The table entry for one byte. */
  function TableEntry(y: Byte): Byte {
    TableShape();
    DSCRC_TABLE[(y >> 4) as nat][(y & 0xf) as nat]
  }

  // The word operations docrc16 performs, named.

  function Xor(a: Word, b: Word): Word { a ^ b }

  function MixIn(crc: Word, data: Word): Word { (data ^ (crc & 0xff)) & 0xff }

  function HighByte(crc: Word): Word { crc >> 8 }

  function Up6(c: Word): Word { c << 6 }

  function Up1(c: Word): Word { c << 1 }

  /** The sixteen-entry parity table, read as the set of nibbles whose entry is 1. */
  predicate OddParity(nibble: Word) {
    nibble == 1 || nibble == 2 || nibble == 4 || nibble == 7 ||
    nibble == 8 || nibble == 11 || nibble == 13 || nibble == 14
  }

  predicate ByteParity(c: Word) {
    OddParity(c & 0xf) != OddParity(c >> 4)
  }

  /** Folds the mixed byte c into the high half: parity constant and two shifted copies. */
  function Fold(high: Word, c: Word): Word {
    var r := if ByteParity(c) then Xor(high, 0xc001) else high;
    Xor(Xor(r, Up6(c)), Up1(Up6(c)))
  }

  /** One byte into a CRC-16. */
  function Crc16Step(crc: Word, data: Word): Word {
    Fold(HighByte(crc), MixIn(crc, data))
  }

  /** The CRC-16 of a message, from a seed. */
  function Crc16(seed: Word, msg: seq<Byte>): Word {
    if msg == [] then seed else Crc16Step(Crc16(seed, msg[..|msg| - 1]), msg[|msg| - 1] as Word)
  }

  function Xor8(a: Byte, b: Byte): Byte { a ^ b }

  /** One byte into a CRC-8. */
  function Crc8Step(crc: Byte, x: Byte): Byte {
    TableEntry(Xor8(crc, x))
  }

  /** The CRC-8 of a message, from a seed. */
  function Crc8(seed: Byte, msg: seq<Byte>): Byte {
    if msg == [] then seed else Crc8Step(Crc8(seed, msg[..|msg| - 1]), msg[|msg| - 1])
  }

  lemma {:induction false} Crc16Snoc(seed: Word, msg: seq<Byte>, b: Byte)
    ensures Crc16(seed, msg + [b]) == Crc16Step(Crc16(seed, msg), b as Word)
  {
    assert (msg + [b])[..|msg|] == msg;
  }

  lemma {:induction false} Crc8Snoc(seed: Byte, msg: seq<Byte>, b: Byte)
    ensures Crc8(seed, msg + [b]) == Crc8Step(Crc8(seed, msg), b)
  {
    assert (msg + [b])[..|msg|] == msg;
  }

  /** The per-port accumulators and the four operations on them. */
  class CrcUnit {
    const utilcrc16: array<Word>
    const utilcrc8: array<Byte>

    ghost predicate Valid()
    {
      utilcrc16.Length == MAX_PORTNUM && utilcrc8.Length == MAX_PORTNUM
    }

    constructor ()
      ensures Valid() && fresh(utilcrc16) && fresh(utilcrc8)
    {
      utilcrc16 := new Word[MAX_PORTNUM];
      utilcrc8 := new Byte[MAX_PORTNUM];
    }

    method SetCrc16(port: nat, reset: Word)
      requires Valid() && port < MAX_PORTNUM
      modifies utilcrc16
      ensures utilcrc16[..] == old(utilcrc16[..])[port := reset]
    {
      utilcrc16[port] := reset;
    }

    method SetCrc8(port: nat, reset: Byte)
      requires Valid() && port < MAX_PORTNUM
      modifies utilcrc8
      ensures utilcrc8[..] == old(utilcrc8[..])[port := reset]
    {
      utilcrc8[port] := reset;
    }

    method DoCrc16(port: nat, data: Word) returns (crc: Word)
      requires Valid() && port < MAX_PORTNUM
      modifies utilcrc16
      ensures crc == Crc16Step(old(utilcrc16[port]), data)
      ensures utilcrc16[..] == old(utilcrc16[..])[port := crc]
    {
      var cdata := MixIn(utilcrc16[port], data);
      utilcrc16[port] := HighByte(utilcrc16[port]);
      if ByteParity(cdata) {
        utilcrc16[port] := Xor(utilcrc16[port], 0xc001);
      }
      cdata := Up6(cdata);
      utilcrc16[port] := Xor(utilcrc16[port], cdata);
      cdata := Up1(cdata);
      utilcrc16[port] := Xor(utilcrc16[port], cdata);
      crc := utilcrc16[port];
    }

    method DoCrc8(port: nat, x: Byte) returns (crc: Byte)
      requires Valid() && port < MAX_PORTNUM
      modifies utilcrc8
      ensures crc == Crc8Step(old(utilcrc8[port]), x)
      ensures utilcrc8[..] == old(utilcrc8[..])[port := crc]
    {
      utilcrc8[port] := TableEntry(Xor8(utilcrc8[port], x));
      crc := utilcrc8[port];
    }

    /** The loop every caller writes around DoCrc16: reset, then every byte of a block. */
    method RunCrc16(port: nat, seed: Word, block: seq<Byte>) returns (crc: Word)
      requires Valid() && port < MAX_PORTNUM
      modifies utilcrc16
      ensures crc == Crc16(seed, block)
      ensures utilcrc16[..] == old(utilcrc16[..])[port := crc]
    {
      SetCrc16(port, seed);
      crc := seed;
      for i := 0 to |block|
        invariant crc == Crc16(seed, block[..i])
        invariant utilcrc16[..] == old(utilcrc16[..])[port := crc]
      {
        assert block[..i + 1] == block[..i] + [block[i]];
        Crc16Snoc(seed, block[..i], block[i]);
        assert utilcrc16[port] == crc;
        crc := DoCrc16(port, block[i] as Word);
      }
      assert block[..|block|] == block;
    }
  }
}
