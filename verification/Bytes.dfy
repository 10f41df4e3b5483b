/** Bytes, and the numbers and addresses kept in them. */
module Bytes {
  type Byte = bv8
  type Word = bv16

  lemma OctetRoundTrip(n: nat)
    requires n < 256
    ensures (n as bv8) as nat == n
  {
    assert 0 <= (n as bv8) as int < 256;
    if n < 128 {
    } else {
    }
  }

  /** A number below 256 as a byte. */
  function OctetOf(n: nat): (b: Byte)
    requires n < 256
    ensures b as nat == n
  {
    OctetRoundTrip(n);
    n as Byte
  }

  lemma WordRoundTrip(n: nat)
    requires n < 0x10000
    ensures (n as bv16) as nat == n
  {
    assert 0 <= (n as bv16) as int < 0x10000;
    if n < 0x8000 {
    } else {
    }
  }

  /** A number below 65536 as a 16-bit word. */
  function WordOf(n: nat): (w: Word)
    requires n < 0x10000
    ensures w as nat == n
  {
    WordRoundTrip(n);
    n as Word
  }

  /** The two bytes of a memory address, as every command block carries them. */
  function AddrLow(a: nat): Byte { OctetOf(a % 256) }

  function AddrHigh(a: nat): Byte { OctetOf(a / 256 % 256) }

  function TargetOf(lo: Byte, hi: Byte): (a: nat)
    ensures a < 0x10000
  {
    (lo as nat) + 256 * (hi as nat)
  }

  lemma AddressRoundTrip(a: nat)
    requires a < 0x10000
    ensures TargetOf(AddrLow(a), AddrHigh(a)) == a
  {
  }
}
