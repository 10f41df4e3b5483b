/** The computation of section 6.1.2 of FIPS 180-4 on 32-bit words: SHA-1 over one block, without the
    final addition. */
module Sha1Spec {
  import opened Bytes

  type W32 = bv32

  function Or32(x: W32, y: W32): W32 { x | y }

  function Shl1(x: W32): W32 { x << 1 }

  function Shr31(x: W32): W32 { x >> 31 }

  function Rotl1(x: W32): W32 { Or32(Shl1(x), Shr31(x)) }

  function Shl5(x: W32): W32 { x << 5 }

  function Shr27(x: W32): W32 { x >> 27 }

  function Rotl5(x: W32): W32 { Or32(Shl5(x), Shr27(x)) }

  function Shl30(x: W32): W32 { x << 30 }

  function Shr2(x: W32): W32 { x >> 2 }

  function Rotl30(x: W32): W32 { Or32(Shl30(x), Shr2(x)) }

  function Ch(x: W32, y: W32, z: W32): W32 { (x & y) ^ (!x & z) }

  function Parity(x: W32, y: W32, z: W32): W32 { x ^ y ^ z }

  function Maj(x: W32, y: W32, z: W32): W32 { (x & y) ^ (x & z) ^ (y & z) }

  function F(t: nat, x: W32, y: W32, z: W32): W32 {
    if t < 20 then Ch(x, y, z) else if t < 40 then Parity(x, y, z) else if t < 60 then Maj(x, y, z) else Parity(x, y, z)
  }

  function K(t: nat): W32 {
    if t < 20 then 0x5a827999 else if t < 40 then 0x6ed9eba1 else if t < 60 then 0x8f1bbcdc else 0xca62c1d6
  }

  function Xor4(a: W32, b: W32, c: W32, d: W32): W32 { a ^ b ^ c ^ d }

  /** Word t of the message schedule. */
  function Schedule(words: seq<W32>, t: nat): W32
    requires |words| == 16
  {
    if t < 16 then words[t]
    else Rotl1(Xor4(Schedule(words, t - 3), Schedule(words, t - 8), Schedule(words, t - 14), Schedule(words, t - 16)))
  }

  datatype Regs = Regs(a: W32, b: W32, c: W32, d: W32, e: W32)

  const H0 := Regs(0x67452301, 0xefcdab89, 0x98badcfe, 0x10325476, 0xc3d2e1f0)

  function Add(a: W32, b: W32): W32 { a + b }

  function Sum5(a: W32, b: W32, c: W32, d: W32, e: W32): W32 { Add(Add(Add(Add(a, b), c), d), e) }

  function Round(r: Regs, t: nat, w: W32): Regs {
    Regs(Sum5(Rotl5(r.a), F(t, r.b, r.c, r.d), r.e, K(t), w), r.a, Rotl30(r.b), r.c, r.d)
  }

  /** The working variables after n rounds. */
  function Rounds(words: seq<W32>, n: nat): Regs
    requires |words| == 16
  {
    if n == 0 then H0 else Round(Rounds(words, n - 1), n - 1, Schedule(words, n - 1))
  }

  /** Four bytes as a big-endian word. */
  function BigEndian(b0: Byte, b1: Byte, b2: Byte, b3: Byte): W32 {
    ((b0 as W32) << 24) | ((b1 as W32) << 16) | ((b2 as W32) << 8) | (b3 as W32)
  }

  /** The sixteen words of a 64-byte block. */
  function WordsOf(block: seq<Byte>): (words: seq<W32>)
    requires |block| == 64
    ensures |words| == 16
  {
    seq(16, i requires 0 <= i < 16 => BigEndian(block[4 * i], block[4 * i + 1], block[4 * i + 2], block[4 * i + 3]))
  }
}
