/** What the CRC engine computes: it is the bit-serial reflected CRC, it is linear,
    injective in its seed, catches every burst of up to sixteen bits, and its
    residue test is the same as comparing inverted CRC bytes. */
module CrcLaws {
  import opened Bytes
  import opened CrcUtil

  // ----- the independent, bit-serial definitions

  /** One bit into the reflected CRC with polynomial x^16 + x^15 + x^2 + 1. */
  function Crc16Bit(crc: Word, bit: bool): Word {
    var c := crc ^ (if bit then 1 else 0);
    (c >> 1) ^ (if c & 1 == 1 then 0xA001 else 0)
  }

  /** One bit into the reflected CRC with polynomial x^8 + x^5 + x^4 + 1. */
  function Crc8Bit(crc: Byte, bit: bool): Byte {
    var c := crc ^ (if bit then 1 else 0);
    (c >> 1) ^ (if c & 1 == 1 then 0x8C else 0)
  }

  function Crc16Bits(seed: Word, bits: seq<bool>): Word
    decreases |bits|
  {
    if bits == [] then seed else Crc16Bits(Crc16Bit(seed, bits[0]), bits[1..])
  }

  function Crc8Bits(seed: Byte, bits: seq<bool>): Byte
    decreases |bits|
  {
    if bits == [] then seed else Crc8Bits(Crc8Bit(seed, bits[0]), bits[1..])
  }

  /** The bits of a byte in the order the CRC consumes them, least significant first. */
  function BitsOf(b: Byte): (bits: seq<bool>)
    ensures |bits| == 8
  {
    [b & 0x01 != 0, b & 0x02 != 0, b & 0x04 != 0, b & 0x08 != 0,
     b & 0x10 != 0, b & 0x20 != 0, b & 0x40 != 0, b & 0x80 != 0]
  }

  function Bits(msg: seq<Byte>): (bits: seq<bool>)
    ensures |bits| == 8 * |msg|
  {
    if msg == [] then [] else Bits(msg[..|msg| - 1]) + BitsOf(msg[|msg| - 1])
  }

  // ----- one byte equals eight bits

  /** One zero bit, written without branches. */
  function Shift16(c: Word): Word { (c >> 1) ^ ((0 - (c & 1)) & 0xA001) }

  function Shift16x8(c: Word): Word {
    Shift16(Shift16(Shift16(Shift16(Shift16(Shift16(Shift16(Shift16(c))))))))
  }

  function Shift8(c: Byte): Byte { (c >> 1) ^ ((0 - (c & 1)) & 0x8C) }

  function Shift8x8(c: Byte): Byte {
    Shift8(Shift8(Shift8(Shift8(Shift8(Shift8(Shift8(Shift8(c))))))))
  }

  function BitWord(bit: bool): Word { if bit then 1 else 0 }

  lemma BitIsShift(c: Word, bit: bool)
    ensures Crc16Bit(c, bit) == Shift16(Xor(c, BitWord(bit)))
  {
  }

  lemma Bit8IsShift(c: Byte, bit: bool)
    ensures Crc8Bit(c, bit) == Shift8(Xor8(c, BitByte(bit)))
  {
  }

  function LowParity(n: Word): Word {
    (n ^ (n >> 1) ^ (n >> 2) ^ (n >> 3) ^ (n >> 4) ^ (n >> 5) ^ (n >> 6) ^ (n >> 7)) & 1
  }

  function Trick(high: Word, c: Word): Word {
    high ^ (c << 6) ^ (c << 7) ^ ((0 - LowParity(c)) & 0xC001)
  }

  /** The parity trick: eight zero bits fold into one parity constant and two shifts. */
  lemma ParityTrick(x: Word)
    ensures Shift16x8(x) == Trick(x >> 8, x & 0xff)
  {
  }

  lemma OddParityIsXor(n: Word)
    requires n < 16
    ensures OddParity(n) == (((n ^ (n >> 1) ^ (n >> 2) ^ (n >> 3)) & 1) == 1)
  {
  }

  lemma ParityIsXor(c: Word)
    requires c < 0x100
    ensures ByteParity(c) == (LowParity(c) == 1)
  {
    OddParityIsXor(c & 0xf);
    OddParityIsXor(c >> 4);
  }

  lemma FoldIsTrick(high: Word, c: Word)
    requires c < 0x100
    ensures Fold(high, c) == Trick(high, c)
  {
    ParityIsXor(c);
    if ByteParity(c) {
    } else {
      assert LowParity(c) == 0;
    }
  }

  lemma MixInIsLowByte(crc: Word, b: Word)
    requires b < 0x100
    ensures MixIn(crc, b) == (crc ^ b) & 0xff < 0x100 && HighByte(crc) == (crc ^ b) >> 8
  {
  }

  /** One byte through docrc16 is eight zero bits through the shift register. */
  lemma StepIsShift(crc: Word, b: Word)
    requires b < 0x100
    ensures Crc16Step(crc, b) == Shift16x8(Xor(crc, b))
  {
    MixInIsLowByte(crc, b);
    FoldIsTrick(HighByte(crc), MixIn(crc, b));
    ParityTrick(crc ^ b);
  }

  // ----- folds over bits

  lemma {:induction false} Crc16BitsAppend(c: Word, a: seq<bool>, b: seq<bool>)
    ensures Crc16Bits(c, a + b) == Crc16Bits(Crc16Bits(c, a), b)
    decreases |a|
  {
    if a == [] {
      assert a + b == b;
    } else {
      assert (a + b)[1..] == a[1..] + b;
      Crc16BitsAppend(Crc16Bit(c, a[0]), a[1..], b);
    }
  }

  lemma {:induction false} Crc8BitsAppend(c: Byte, a: seq<bool>, b: seq<bool>)
    ensures Crc8Bits(c, a + b) == Crc8Bits(Crc8Bits(c, a), b)
    decreases |a|
  {
    if a == [] {
      assert a + b == b;
    } else {
      assert (a + b)[1..] == a[1..] + b;
      Crc8BitsAppend(Crc8Bit(c, a[0]), a[1..], b);
    }
  }

  lemma FourBits16(c: Word, s: seq<bool>)
    requires |s| == 4
    ensures Crc16Bits(c, s) == Crc16Bit(Crc16Bit(Crc16Bit(Crc16Bit(c, s[0]), s[1]), s[2]), s[3])
  {
    assert s[1..][1..] == s[2..] && s[2..][1..] == s[3..] && s[3..][1..] == [];
    var c1 := Crc16Bit(c, s[0]);
    var c2 := Crc16Bit(c1, s[1]);
    var c3 := Crc16Bit(c2, s[2]);
    assert Crc16Bits(c, s) == Crc16Bits(c1, s[1..]);
    assert Crc16Bits(c1, s[1..]) == Crc16Bits(c2, s[2..]);
    assert Crc16Bits(c2, s[2..]) == Crc16Bits(c3, s[3..]);
    assert Crc16Bits(c3, s[3..]) == Crc16Bits(Crc16Bit(c3, s[3]), []);
  }

  lemma FourBits8(c: Byte, s: seq<bool>)
    requires |s| == 4
    ensures Crc8Bits(c, s) == Crc8Bit(Crc8Bit(Crc8Bit(Crc8Bit(c, s[0]), s[1]), s[2]), s[3])
  {
    assert s[1..][1..] == s[2..] && s[2..][1..] == s[3..] && s[3..][1..] == [];
    var c1 := Crc8Bit(c, s[0]);
    var c2 := Crc8Bit(c1, s[1]);
    var c3 := Crc8Bit(c2, s[2]);
    assert Crc8Bits(c, s) == Crc8Bits(c1, s[1..]);
    assert Crc8Bits(c1, s[1..]) == Crc8Bits(c2, s[2..]);
    assert Crc8Bits(c2, s[2..]) == Crc8Bits(c3, s[3..]);
    assert Crc8Bits(c3, s[3..]) == Crc8Bits(Crc8Bit(c3, s[3]), []);
  }

  lemma EightBits16(c0: Word, s: seq<bool>) returns (c4: Word)
    requires |s| == 8
    ensures c4 == Crc16Bit(Crc16Bit(Crc16Bit(Crc16Bit(c0, s[0]), s[1]), s[2]), s[3])
    ensures Crc16Bits(c0, s) == Crc16Bit(Crc16Bit(Crc16Bit(Crc16Bit(c4, s[4]), s[5]), s[6]), s[7])
  {
    var a, b := s[..4], s[4..];
    assert s == a + b;
    Crc16BitsAppend(c0, a, b);
    FourBits16(c0, a);
    c4 := Crc16Bits(c0, a);
    FourBits16(c4, b);
  }

  lemma EightBits8(c0: Byte, s: seq<bool>) returns (c4: Byte)
    requires |s| == 8
    ensures c4 == Crc8Bit(Crc8Bit(Crc8Bit(Crc8Bit(c0, s[0]), s[1]), s[2]), s[3])
    ensures Crc8Bits(c0, s) == Crc8Bit(Crc8Bit(Crc8Bit(Crc8Bit(c4, s[4]), s[5]), s[6]), s[7])
  {
    var a, b := s[..4], s[4..];
    assert s == a + b;
    Crc8BitsAppend(c0, a, b);
    FourBits8(c0, a);
    c4 := Crc8Bits(c0, a);
    FourBits8(c4, b);
  }

  function Rest(w: Word): Word { w >> 1 }

  predicate Low(w: Word) { w & 1 != 0 }

  function Rest8(b: Byte): Byte { b >> 1 }

  predicate Low8(b: Byte) { b & 1 != 0 }

  lemma XorAssoc(a: Word, b: Word, c: Word)
    ensures Xor(Xor(a, b), c) == Xor(a, Xor(b, c))
  {
  }

  lemma XorComm(a: Word, b: Word)
    ensures Xor(a, b) == Xor(b, a)
  {
  }

  lemma ShiftIsLinear(x: Word, y: Word)
    ensures Shift16(Xor(x, y)) == Xor(Shift16(x), Shift16(y))
  {
  }

  lemma Shift8IsLinear(x: Byte, y: Byte)
    ensures Shift8(Xor8(x, y)) == Xor8(Shift8(x), Shift8(y))
  {
  }

  lemma Xor8Assoc(a: Byte, b: Byte, c: Byte)
    ensures Xor8(Xor8(a, b), c) == Xor8(a, Xor8(b, c))
  {
  }

  function BitByte(bit: bool): Byte { if bit then 1 else 0 }

  lemma SplitLowBit(w: Word, m: Word)
    requires m == w & 0xFFFE
    ensures w == Xor(BitWord(Low(w)), m) && Shift16(m) == Rest(w)
  {
  }

  lemma SplitLowBit8(w: Byte, m: Byte)
    requires m == w & 0xFE
    ensures w == Xor8(BitByte(Low8(w)), m) && Shift8(m) == Rest8(w)
  {
  }

  /** Feeding the low bit now and the rest later is the same as feeding everything at once. */
  lemma FeedOneBit(c: Word, w: Word)
    ensures Xor(Crc16Bit(c, Low(w)), Rest(w)) == Shift16(Xor(c, w))
  {
    var bit, m := BitWord(Low(w)), w & 0xFFFE;
    BitIsShift(c, Low(w));
    SplitLowBit(w, m);
    XorAssoc(c, bit, m);
    ShiftIsLinear(Xor(c, bit), m);
  }

  lemma FeedOneBit8(c: Byte, w: Byte)
    ensures Xor8(Crc8Bit(c, Low8(w)), Rest8(w)) == Shift8(Xor8(c, w))
  {
    var bit, m := BitByte(Low8(w)), w & 0xFE;
    Bit8IsShift(c, Low8(w));
    SplitLowBit8(w, m);
    Xor8Assoc(c, bit, m);
    Shift8IsLinear(Xor8(c, bit), m);
  }

  lemma FeedFourBits(c0: Word, w0: Word, c4: Word, w4: Word)
    requires w4 == Rest(Rest(Rest(Rest(w0))))
    requires c4 == Crc16Bit(Crc16Bit(Crc16Bit(Crc16Bit(c0, Low(w0)), Low(Rest(w0))), Low(Rest(Rest(w0)))),
                            Low(Rest(Rest(Rest(w0)))))
    ensures Xor(c4, w4) == Shift16(Shift16(Shift16(Shift16(Xor(c0, w0)))))
  {
    var w1 := Rest(w0); var w2 := Rest(w1); var w3 := Rest(w2);
    var c1 := Crc16Bit(c0, Low(w0)); var c2 := Crc16Bit(c1, Low(w1)); var c3 := Crc16Bit(c2, Low(w2));
    FeedOneBit(c0, w0); FeedOneBit(c1, w1); FeedOneBit(c2, w2); FeedOneBit(c3, w3);
  }

  lemma FeedFourBits8(c0: Byte, w0: Byte, c4: Byte, w4: Byte)
    requires w4 == Rest8(Rest8(Rest8(Rest8(w0))))
    requires c4 == Crc8Bit(Crc8Bit(Crc8Bit(Crc8Bit(c0, Low8(w0)), Low8(Rest8(w0))), Low8(Rest8(Rest8(w0)))),
                           Low8(Rest8(Rest8(Rest8(w0)))))
    ensures Xor8(c4, w4) == Shift8(Shift8(Shift8(Shift8(Xor8(c0, w0)))))
  {
    var w1 := Rest8(w0); var w2 := Rest8(w1); var w3 := Rest8(w2);
    var c1 := Crc8Bit(c0, Low8(w0)); var c2 := Crc8Bit(c1, Low8(w1)); var c3 := Crc8Bit(c2, Low8(w2));
    FeedOneBit8(c0, w0); FeedOneBit8(c1, w1); FeedOneBit8(c2, w2); FeedOneBit8(c3, w3);
  }

  lemma ByteBits(b: Byte, w: Word, w4: Word)
    requires w == b as Word && w4 == Rest(Rest(Rest(Rest(w))))
    ensures BitsOf(b)[0] == Low(w) && BitsOf(b)[1] == Low(Rest(w))
    ensures BitsOf(b)[2] == Low(Rest(Rest(w))) && BitsOf(b)[3] == Low(Rest(Rest(Rest(w))))
    ensures BitsOf(b)[4] == Low(w4) && BitsOf(b)[5] == Low(Rest(w4))
    ensures BitsOf(b)[6] == Low(Rest(Rest(w4))) && BitsOf(b)[7] == Low(Rest(Rest(Rest(w4))))
    ensures Rest(Rest(Rest(Rest(w4)))) == 0
  {
  }

  lemma ByteBits8(w: Byte, w4: Byte)
    requires w4 == Rest8(Rest8(Rest8(Rest8(w))))
    ensures BitsOf(w)[0] == Low8(w) && BitsOf(w)[1] == Low8(Rest8(w))
    ensures BitsOf(w)[2] == Low8(Rest8(Rest8(w))) && BitsOf(w)[3] == Low8(Rest8(Rest8(Rest8(w))))
    ensures BitsOf(w)[4] == Low8(w4) && BitsOf(w)[5] == Low8(Rest8(w4))
    ensures BitsOf(w)[6] == Low8(Rest8(Rest8(w4))) && BitsOf(w)[7] == Low8(Rest8(Rest8(Rest8(w4))))
    ensures Rest8(Rest8(Rest8(Rest8(w4)))) == 0
  {
  }

  lemma XorZero(c: Word, c8: Byte)
    ensures Xor(c, 0) == c && Xor8(c8, 0) == c8
  {
  }

  /** The bits of one byte, fed one at a time into the CRC-16. */
  lemma ByteOfBits(c0: Word, b: Byte)
    ensures Crc16Bits(c0, BitsOf(b)) == Shift16x8(Xor(c0, b as Word))
  {
    var w0 := b as Word;
    var w4 := Rest(Rest(Rest(Rest(w0))));
    ByteBits(b, w0, w4);
    var c4 := EightBits16(c0, BitsOf(b));
    var c8 := Crc16Bits(c0, BitsOf(b));
    FeedFourBits(c0, w0, c4, w4);
    FeedFourBits(c4, w4, c8, 0);
    XorZero(c8, 0);
  }

  /** The bits of one byte, fed one at a time into the CRC-8. */
  lemma ByteOfBits8(c0: Byte, b: Byte)
    ensures Crc8Bits(c0, BitsOf(b)) == Shift8x8(Xor8(c0, b))
  {
    var w4 := Rest8(Rest8(Rest8(Rest8(b))));
    ByteBits8(b, w4);
    var c4 := EightBits8(c0, BitsOf(b));
    var c8 := Crc8Bits(c0, BitsOf(b));
    FeedFourBits8(c0, b, c4, w4);
    FeedFourBits8(c4, w4, c8, 0);
    XorZero(0, c8);
  }

  lemma TableRows0To3(y: Byte)
    requires y >> 4 == 0 || y >> 4 == 1 || y >> 4 == 2 || y >> 4 == 3
    ensures TableEntry(y) == Shift8x8(y)
  {
    TableShape();
    if y >> 4 == 0 {} else if y >> 4 == 1 {} else if y >> 4 == 2 {} else if y >> 4 == 3 {}
  }

  lemma TableRows4To7(y: Byte)
    requires y >> 4 == 4 || y >> 4 == 5 || y >> 4 == 6 || y >> 4 == 7
    ensures TableEntry(y) == Shift8x8(y)
  {
    TableShape();
    if y >> 4 == 4 {} else if y >> 4 == 5 {} else if y >> 4 == 6 {} else if y >> 4 == 7 {}
  }

  lemma TableRows8To11(y: Byte)
    requires y >> 4 == 8 || y >> 4 == 9 || y >> 4 == 10 || y >> 4 == 11
    ensures TableEntry(y) == Shift8x8(y)
  {
    TableShape();
    if y >> 4 == 8 {} else if y >> 4 == 9 {} else if y >> 4 == 10 {} else if y >> 4 == 11 {}
  }

  lemma TableRows12To15(y: Byte)
    requires y >> 4 == 12 || y >> 4 == 13 || y >> 4 == 14 || y >> 4 == 15
    ensures TableEntry(y) == Shift8x8(y)
  {
    TableShape();
    if y >> 4 == 12 {} else if y >> 4 == 13 {} else if y >> 4 == 14 {} else if y >> 4 == 15 {}
  }

  /** Every table entry is eight zero bits of the CRC-8 register. */
  lemma TableIsShift(y: Byte)
    ensures TableEntry(y) == Shift8x8(y)
  {
    var h := y >> 4;
    if h == 0 || h == 1 || h == 2 || h == 3 {
      TableRows0To3(y);
    } else if h == 4 || h == 5 || h == 6 || h == 7 {
      TableRows4To7(y);
    } else if h == 8 || h == 9 || h == 10 || h == 11 {
      TableRows8To11(y);
    } else {
      TableRows12To15(y);
    }
  }

  // ----- the engine is the bit-serial CRC

  /** docrc16 run over any message is the bit-serial CRC-16 over its bits. */
  lemma {:induction false} Crc16IsBitSerial(seed: Word, msg: seq<Byte>)
    ensures Crc16(seed, msg) == Crc16Bits(seed, Bits(msg))
  {
    if msg != [] {
      var init, last := msg[..|msg| - 1], msg[|msg| - 1];
      Crc16IsBitSerial(seed, init);
      Crc16BitsAppend(seed, Bits(init), BitsOf(last));
      ByteOfBits(Crc16(seed, init), last);
      StepIsShift(Crc16(seed, init), last as Word);
    }
  }

  /** docrc8 run over any message is the bit-serial CRC-8 over its bits. */
  lemma {:induction false} Crc8IsBitSerial(seed: Byte, msg: seq<Byte>)
    ensures Crc8(seed, msg) == Crc8Bits(seed, Bits(msg))
  {
    if msg != [] {
      var init, last := msg[..|msg| - 1], msg[|msg| - 1];
      Crc8IsBitSerial(seed, init);
      Crc8BitsAppend(seed, Bits(init), BitsOf(last));
      ByteOfBits8(Crc8(seed, init), last);
      TableIsShift(Xor8(Crc8(seed, init), last));
    }
  }

  // ----- linearity and injectivity

  function XorBytes(a: seq<Byte>, b: seq<Byte>): (r: seq<Byte>)
    requires |a| == |b|
    ensures |r| == |a|
  {
    seq(|a|, i requires 0 <= i < |a| => Xor8(a[i], b[i]))
  }

  lemma ShiftIsInjective(x: Word, y: Word)
    requires Shift16(x) == Shift16(y)
    ensures x == y
  {
  }

  lemma Shift16x8IsLinear(x: Word, y: Word)
    ensures Shift16x8(Xor(x, y)) == Xor(Shift16x8(x), Shift16x8(y))
  {
    var x1, y1 := Shift16(x), Shift16(y);
    var x2, y2 := Shift16(x1), Shift16(y1);
    var x3, y3 := Shift16(x2), Shift16(y2);
    var x4, y4 := Shift16(x3), Shift16(y3);
    var x5, y5 := Shift16(x4), Shift16(y4);
    var x6, y6 := Shift16(x5), Shift16(y5);
    var x7, y7 := Shift16(x6), Shift16(y6);
    ShiftIsLinear(x, y); ShiftIsLinear(x1, y1); ShiftIsLinear(x2, y2); ShiftIsLinear(x3, y3);
    ShiftIsLinear(x4, y4); ShiftIsLinear(x5, y5); ShiftIsLinear(x6, y6); ShiftIsLinear(x7, y7);
  }

  lemma {:induction false} XorShuffle(a: Word, b: Word, c: Word, d: Word)
    ensures Xor(Xor(a, b), Xor(c, d)) == Xor(Xor(a, c), Xor(b, d))
  {
    XorAssoc(Xor(a, b), c, d);
    XorAssoc(a, b, c);
    XorComm(b, c);
    XorAssoc(a, c, b);
    XorAssoc(Xor(a, c), b, d);
  }

  lemma XorBytesWiden(x: Byte, y: Byte)
    ensures Xor8(x, y) as Word == Xor(x as Word, y as Word)
  {
  }

  lemma StepIsLinear(c: Word, d: Word, x: Byte, y: Byte)
    ensures Crc16Step(Xor(c, d), Xor8(x, y) as Word) == Xor(Crc16Step(c, x as Word), Crc16Step(d, y as Word))
  {
    XorBytesWiden(x, y);
    StepIsShift(c, x as Word);
    StepIsShift(d, y as Word);
    StepIsShift(Xor(c, d), Xor(x as Word, y as Word));
    XorShuffle(c, x as Word, d, y as Word);
    Shift16x8IsLinear(Xor(c, x as Word), Xor(d, y as Word));
  }

  /** CRC-16 is linear over exclusive-or: seeds and messages may be combined before or after. */
  lemma {:induction false} Crc16IsLinear(s: Word, t: Word, a: seq<Byte>, b: seq<Byte>)
    requires |a| == |b|
    ensures Crc16(Xor(s, t), XorBytes(a, b)) == Xor(Crc16(s, a), Crc16(t, b))
  {
    if a != [] {
      var n := |a| - 1;
      var a', b', x, y := a[..n], b[..n], a[n], b[n];
      assert a == a' + [x] && b == b' + [y];
      assert XorBytes(a, b) == XorBytes(a', b') + [Xor8(x, y)];
      Crc16IsLinear(s, t, a', b');
      Crc16Snoc(s, a', x);
      Crc16Snoc(t, b', y);
      Crc16Snoc(Xor(s, t), XorBytes(a', b'), Xor8(x, y));
      StepIsLinear(Crc16(s, a'), Crc16(t, b'), x, y);
    }
  }

  /** Two seeds that give the same CRC-16 over the same message are the same seed. */
  lemma {:induction false} Crc16SeedInjective(s: Word, t: Word, msg: seq<Byte>)
    requires Crc16(s, msg) == Crc16(t, msg)
    ensures s == t
  {
    if msg != [] {
      var init, x := msg[..|msg| - 1], msg[|msg| - 1];
      var c, d := Crc16(s, init), Crc16(t, init);
      StepIsInjective(c, d, x);
      Crc16SeedInjective(s, t, init);
    }
  }

  lemma StepIsInjective(c: Word, d: Word, x: Byte)
    requires Crc16Step(c, x as Word) == Crc16Step(d, x as Word)
    ensures c == d
  {
    StepIsShift(c, x as Word);
    StepIsShift(d, x as Word);
    Shift16x8IsInjective(Xor(c, x as Word), Xor(d, x as Word));
    XorCancel(c, x as Word);
    XorCancel(d, x as Word);
  }

  lemma XorCancel(a: Word, b: Word)
    ensures Xor(Xor(a, b), b) == a
  {
  }

  lemma Shift16x8IsInjective(x: Word, y: Word)
    requires Shift16x8(x) == Shift16x8(y)
    ensures x == y
  {
    var x1, y1 := Shift16(x), Shift16(y);
    var x2, y2 := Shift16(x1), Shift16(y1);
    var x3, y3 := Shift16(x2), Shift16(y2);
    var x4, y4 := Shift16(x3), Shift16(y3);
    var x5, y5 := Shift16(x4), Shift16(y4);
    var x6, y6 := Shift16(x5), Shift16(y5);
    var x7, y7 := Shift16(x6), Shift16(y6);
    ShiftIsInjective(x7, y7); ShiftIsInjective(x6, y6); ShiftIsInjective(x5, y5); ShiftIsInjective(x4, y4);
    ShiftIsInjective(x3, y3); ShiftIsInjective(x2, y2); ShiftIsInjective(x1, y1); ShiftIsInjective(x, y);
  }

  // ----- burst detection

  lemma BitIsInjective(c: Word, d: Word, bit: bool)
    requires Crc16Bit(c, bit) == Crc16Bit(d, bit)
    ensures c == d
  {
  }

  lemma {:induction false} BitsInjective(c: Word, d: Word, bits: seq<bool>)
    requires c != d
    ensures Crc16Bits(c, bits) != Crc16Bits(d, bits)
    decreases |bits|
  {
    if bits != [] {
      if Crc16Bit(c, bits[0]) == Crc16Bit(d, bits[0]) {
        BitIsInjective(c, d, bits[0]);
      }
      BitsInjective(Crc16Bit(c, bits[0]), Crc16Bit(d, bits[0]), bits[1..]);
    }
  }

  function Half(t: Word): Word { t >> 1 }

  predicate AtLeast(v: Word, t: Word) { v >= t }

  /** Halving t n times leaves it nonzero: t has at least n spare bits. */
  predicate Lasts(t: Word, n: nat)
    decreases n
  {
    if n == 0 then t != 0 else Lasts(Half(t), n - 1)
  }

  lemma ShiftKeepsHalf(v: Word, e: bool, t: Word)
    requires AtLeast(v, t)
    ensures AtLeast(Shift16(Xor(v, BitWord(e))), Half(t))
  {
  }

  lemma BitWordXor(x: bool, y: bool)
    ensures Xor(BitWord(x), BitWord(y)) == BitWord(x != y)
  {
  }

  /** A difference of at least t stays at least t/2 whatever the next two bits are. */
  lemma DifferenceDecays(c: Word, d: Word, t: Word, x: bool, y: bool)
    requires AtLeast(Xor(c, d), t)
    ensures AtLeast(Xor(Crc16Bit(c, x), Crc16Bit(d, y)), Half(t))
  {
    BitIsShift(c, x);
    BitIsShift(d, y);
    ShiftIsLinear(Xor(c, BitWord(x)), Xor(d, BitWord(y)));
    XorShuffle(c, BitWord(x), d, BitWord(y));
    BitWordXor(x, y);
    ShiftKeepsHalf(Xor(c, d), x != y, t);
  }

  /** The first differing bit sets the top bit of the difference. */
  lemma DifferenceStarts(c: Word, x: bool, y: bool)
    requires x != y
    ensures AtLeast(Xor(Crc16Bit(c, x), Crc16Bit(c, y)), 0x8000)
  {
  }

  lemma XorSelf(c: Word)
    ensures Xor(c, c) == 0
  {
  }

  lemma AtLeastNonzero(c: Word, d: Word, t: Word)
    requires AtLeast(Xor(c, d), t) && t != 0
    ensures c != d
  {
    XorSelf(c);
  }

  lemma {:induction false} DifferenceLasts(c: Word, d: Word, a: seq<bool>, b: seq<bool>, t: Word)
    requires |a| == |b| && AtLeast(Xor(c, d), t) && Lasts(t, |a|)
    ensures Crc16Bits(c, a) != Crc16Bits(d, b)
    decreases |a|
  {
    if a == [] {
      AtLeastNonzero(c, d, t);
    } else {
      DifferenceDecays(c, d, t, a[0], b[0]);
      DifferenceLasts(Crc16Bit(c, a[0]), Crc16Bit(d, b[0]), a[1..], b[1..], Half(t));
    }
  }

  lemma {:induction false} LastsLess(t: Word, n: nat, m: nat)
    requires Lasts(t, n) && m <= n
    ensures Lasts(t, m)
    decreases n
  {
    if m > 0 {
      LastsLess(Half(t), n - 1, m - 1);
    } else if n > 0 {
      LastsLess(Half(t), n - 1, 0);
    }
  }

  lemma TopBitLasts(n: nat)
    requires n <= 15
    ensures Lasts(0x8000, n)
  {
    assert Lasts(0x0001, 0);
    assert Lasts(0x0002, 1);
    assert Lasts(0x0004, 2);
    assert Lasts(0x0008, 3);
    assert Lasts(0x0010, 4);
    assert Lasts(0x0020, 5);
    assert Lasts(0x0040, 6);
    assert Lasts(0x0080, 7);
    assert Lasts(0x0100, 8);
    assert Lasts(0x0200, 9);
    assert Lasts(0x0400, 10);
    assert Lasts(0x0800, 11);
    assert Lasts(0x1000, 12);
    assert Lasts(0x2000, 13);
    assert Lasts(0x4000, 14);
    assert Lasts(0x8000, 15);
    LastsLess(0x8000, 15, n);
  }

  /** Bit strings that first differ within a window of sixteen bits never share a CRC-16. */
  lemma {:induction false} BurstOfBits(c: Word, a: seq<bool>, b: seq<bool>, j: nat)
    requires |a| == |b| && a != b
    requires forall k | 0 <= k < |a| && !(j <= k < j + 16) :: a[k] == b[k]
    ensures Crc16Bits(c, a) != Crc16Bits(c, b)
    decreases |a|
  {
    var a', b' := a[1..], b[1..];
    assert a == [a[0]] + a' && b == [b[0]] + b';
    if a[0] == b[0] {
      BurstOfBits(Crc16Bit(c, a[0]), a', b', if j == 0 then 0 else j - 1);
    } else {
      var n := if |a'| <= 15 then |a'| else 15;
      var c', d' := Crc16Bit(c, a[0]), Crc16Bit(c, b[0]);
      assert a' == a'[..n] + a'[n..] && b' == b'[..n] + b'[n..];
      assert a'[n..] == b'[n..];
      DifferenceStarts(c, a[0], b[0]);
      TopBitLasts(n);
      DifferenceLasts(c', d', a'[..n], b'[..n], 0x8000);
      BitsInjective(Crc16Bits(c', a'[..n]), Crc16Bits(d', b'[..n]), a'[n..]);
      Crc16BitsAppend(c', a'[..n], a'[n..]);
      Crc16BitsAppend(d', b'[..n], b'[n..]);
    }
  }

  lemma BitsOfInjective(x: Byte, y: Byte)
    requires BitsOf(x) == BitsOf(y)
    ensures x == y
  {
    var s, t := BitsOf(x), BitsOf(y);
    assert s[0] == t[0] && s[1] == t[1] && s[2] == t[2] && s[3] == t[3];
    assert s[4] == t[4] && s[5] == t[5] && s[6] == t[6] && s[7] == t[7];
  }

  lemma {:induction false} BitsIsInjective(a: seq<Byte>, b: seq<Byte>)
    requires |a| == |b| && Bits(a) == Bits(b)
    ensures a == b
  {
    if a != [] {
      var n := |a| - 1;
      assert Bits(a)[..8 * n] == Bits(a[..n]) && Bits(b)[..8 * n] == Bits(b[..n]);
      assert Bits(a)[8 * n..] == BitsOf(a[n]) && Bits(b)[8 * n..] == BitsOf(b[n]);
      BitsIsInjective(a[..n], b[..n]);
      BitsOfInjective(a[n], b[n]);
      assert a == a[..n] + [a[n]] && b == b[..n] + [b[n]];
    }
  }

  /** Two messages differ only inside the sixteen bits from bit j on, in the order the CRC consumes them. */
  predicate DifferWithin(a: seq<Byte>, b: seq<Byte>, j: nat) {
    |a| == |b| && forall k | 0 <= k < 8 * |a| && !(j <= k < j + 16) :: Bits(a)[k] == Bits(b)[k]
  }

  /** Changing a message only inside some sixteen consecutive bits, in the order the CRC
      consumes them, always changes its CRC-16. */
  lemma BurstIsDetected(seed: Word, a: seq<Byte>, b: seq<Byte>, j: nat)
    requires DifferWithin(a, b, j) && a != b
    ensures Crc16(seed, a) != Crc16(seed, b)
  {
    if Bits(a) == Bits(b) {
      BitsIsInjective(a, b);
    }
    BurstOfBits(seed, Bits(a), Bits(b), j);
    Crc16IsBitSerial(seed, a);
    Crc16IsBitSerial(seed, b);
  }

  // ----- residues

  /** Two received bytes read as a word, low byte first. */
  function Join(lo: Byte, hi: Byte): Word { (lo as Word) + ((hi as Word) << 8) }

  function Inverted(c: Word): Word { !c }

  function LowOf(w: Word): Byte { (w & 0xff) as Byte }

  function HighOf(w: Word): Byte { (w >> 8) as Byte }

  lemma InvertedIsXor(c: Word)
    ensures Inverted(c) == Xor(c, 0xFFFF)
  {
  }

  lemma HighByteIsLater(h: Word, up: Word)
    requires h < 0x100 && up == h << 8
    ensures Shift16x8(up) == h
  {
  }

  lemma JoinIsXor(lo: Byte, hi: Byte, w: Word, l: Word, up: Word)
    requires w == Join(lo, hi) && l == lo as Word && up == (hi as Word) << 8
    ensures w == Xor(l, up)
  {
  }

  lemma JoinParts(lo: Byte, hi: Byte, w: Word)
    requires w == Join(lo, hi)
    ensures lo == LowOf(w) && hi == HighOf(w)
  {
  }

  lemma PartsJoin(lo: Byte, hi: Byte, w: Word)
    requires lo == LowOf(w) && hi == HighOf(w)
    ensures w == Join(lo, hi)
  {
  }

  lemma SixteenShiftsToResidue(v: Word)
    ensures Shift16x8(Shift16x8(v)) == 0xB001 <==> v == 0xFFFF
  {
    if Shift16x8(Shift16x8(v)) == 0xB001 {
      Shift16x8IsInjective(Shift16x8(v), Shift16x8(0xFFFF));
      Shift16x8IsInjective(v, 0xFFFF);
    }
  }

  lemma TwoBytesAtOnce(c: Word, lo: Byte, hi: Byte)
    ensures Shift16x8(Xor(Shift16x8(Xor(c, lo as Word)), hi as Word)) == Shift16x8(Shift16x8(Xor(c, Join(lo, hi))))
  {
    var l, h, up := lo as Word, hi as Word, (hi as Word) << 8;
    HighByteIsLater(h, up);
    JoinIsXor(lo, hi, Join(lo, hi), l, up);
    Shift16x8IsLinear(Xor(c, l), up);
    XorAssoc(c, l, up);
  }

  /** The test of the DS2408 driver: CRC exclusive-or the received word is 0xFFFF. */
  predicate Ds2408Accepts(seed: Word, msg: seq<Byte>, lo: Byte, hi: Byte) {
    Xor(Crc16(seed, msg), Join(lo, hi)) == 0xFFFF
  }

  /** The residue test of the memory banks and the DS2408 test accept the same frames. */
  lemma TestsAgree(seed: Word, msg: seq<Byte>, lo: Byte, hi: Byte)
    ensures Crc16(seed, msg + [lo, hi]) == 0xB001 <==> Ds2408Accepts(seed, msg, lo, hi)
  {
    var c := Crc16(seed, msg);
    assert msg + [lo, hi] == msg + [lo] + [hi];
    Crc16Snoc(seed, msg, lo);
    Crc16Snoc(seed, msg + [lo], hi);
    StepIsShift(c, lo as Word);
    StepIsShift(Crc16Step(c, lo as Word), hi as Word);
    TwoBytesAtOnce(c, lo, hi);
    SixteenShiftsToResidue(Xor(c, Join(lo, hi)));
  }

  /** The residue 0xB001 is reached exactly when the last two bytes are the inverted CRC, low byte first. */
  lemma ResidueIffInvertedCrc(seed: Word, msg: seq<Byte>, lo: Byte, hi: Byte)
    ensures Crc16(seed, msg + [lo, hi]) == 0xB001
       <==> lo == LowOf(Inverted(Crc16(seed, msg))) && hi == HighOf(Inverted(Crc16(seed, msg)))
  {
    var c, w := Crc16(seed, msg), Join(lo, hi);
    TestsAgree(seed, msg, lo, hi);
    InvertedIsXor(c);
    XorComm(c, w);
    XorCancel(w, c);
    XorComm(c, 0xFFFF);
    XorCancel(0xFFFF, c);
    JoinParts(lo, hi, w);
    if lo == LowOf(Inverted(c)) && hi == HighOf(Inverted(c)) {
      PartsJoin(lo, hi, Inverted(c));
    }
  }

  lemma Xor8Zero(x: Byte, y: Byte)
    ensures Xor8(x, y) == 0 <==> x == y
  {
  }

  lemma Shift8x8Kernel(y: Byte)
    ensures Shift8x8(y) == 0 <==> y == 0
  {
  }

  /** An appended CRC-8 byte leaves residue 0 exactly when it matches. */
  lemma Crc8Residue(seed: Byte, msg: seq<Byte>, x: Byte)
    ensures Crc8(seed, msg + [x]) == 0 <==> x == Crc8(seed, msg)
  {
    var c := Crc8(seed, msg);
    Crc8Snoc(seed, msg, x);
    TableIsShift(Xor8(c, x));
    Shift8x8Kernel(Xor8(c, x));
    Xor8Zero(c, x);
  }

  /** A frame accepted under one seed is rejected under every other seed. */
  lemma SeedBinding(s: Word, t: Word, frame: seq<Byte>)
    requires s != t && Crc16(s, frame) == 0xB001
    ensures Crc16(t, frame) != 0xB001
  {
    if Crc16(t, frame) == 0xB001 {
      Crc16SeedInjective(s, t, frame);
    }
  }

  /** A block with its inverted CRC appended, as the device sends it. */
  function WithCrc(body: seq<Byte>): (r: seq<Byte>)
    ensures |r| == |body| + 2
  {
    var c := Inverted(Crc16(0, body));
    body + [LowOf(c), HighOf(c)]
  }

  lemma WithCrcAccepted(body: seq<Byte>)
    ensures Crc16(0, WithCrc(body)) == 0xB001
  {
    var c := Inverted(Crc16(0, body));
    ResidueIffInvertedCrc(0, body, LowOf(c), HighOf(c));
  }

  /** A frame that a device sent with its CRC, damaged inside sixteen consecutive bits, CRC included,
      is accepted exactly when it is not damaged at all. */
  lemma DamagedFrameIsRefused(body: seq<Byte>, frame: seq<Byte>, j: nat)
    requires DifferWithin(WithCrc(body), frame, j)
    ensures Crc16(0, frame) == 0xB001 <==> frame == WithCrc(body)
  {
    WithCrcAccepted(body);
    if frame != WithCrc(body) {
      BurstIsDetected(0, WithCrc(body), frame, j);
    }
  }
}
