/** The MAC engine of mbshaee.c and its twin in ibsha33o.c: SHA-1 without the final addition,
    computed on `long` words wider than 32 bits with every shift masked by hand. The code is
    proved against the computation of section 6.1.2 of FIPS 180-4 on 32-bit words. */
module Sha1 {
  import opened Bytes
  import opened Sha1Known
  import opened Sha1Spec

  type Long = bv64

  // ----- the operations of the code on `long` words, named

  function Low(x: Long): W32 { (x & 0xffffffff) as W32 }

  // Arithmetic right shifts of a signed word: the sign bit fills from the left.

  function Asr2(x: Long): Long { (x >> 2) | ((0 - (x >> 63)) << 62) }

  function Asr27(x: Long): Long { (x >> 27) | ((0 - (x >> 63)) << 37) }

  function Asr31(x: Long): Long { (x >> 31) | ((0 - (x >> 63)) << 33) }

  function OrLong(x: Long, y: Long): Long { x | y }

  function MaskedShl1(x: Long): Long { (x << 1) & 0xfffffffe }

  function MaskedShr31(x: Long): Long { Asr31(x) & 0x00000001 }

  function MaskedRotl1(x: Long): Long { OrLong(MaskedShl1(x), MaskedShr31(x)) }

  function MaskedShl5(x: Long): Long { (x << 5) & 0xffffffe0 }

  function MaskedShr27(x: Long): Long { Asr27(x) & 0x0000001f }

  function MaskedRotl5(x: Long): Long { OrLong(MaskedShl5(x), MaskedShr27(x)) }

  function MaskedShl30(x: Long): Long { (x << 30) & 0xc0000000 }

  function MaskedShr2(x: Long): Long { Asr2(x) & 0x3fffffff }

  function MaskedRotl30(x: Long): Long { OrLong(MaskedShl30(x), MaskedShr2(x)) }

  function XorLong4(a: Long, b: Long, c: Long, d: Long): Long { a ^ b ^ c ^ d }

  function AddLong(a: Long, b: Long): Long { a + b }

  function Sum5Long(a: Long, b: Long, c: Long, d: Long, e: Long): Long {
    AddLong(AddLong(AddLong(AddLong(a, b), c), d), e)
  }

  function KTN(n: nat): Long {
    if n < 20 then 0x5a827999 else if n < 40 then 0x6ed9eba1 else if n < 60 then 0x8f1bbcdc else 0xca62c1d6
  }

  function Choose(b: Long, c: Long, d: Long): Long { (b & c) | ((!b) & d) }

  function Differ(b: Long, c: Long, d: Long): Long { b ^ c ^ d }

  function Agree(b: Long, c: Long, d: Long): Long { (b & c) | (b & d) | (c & d) }

  function NLF(b: Long, c: Long, d: Long, n: nat): Long {
    if n < 20 then Choose(b, c, d)
    else if n < 40 then Differ(b, c, d)
    else if n < 60 then Agree(b, c, d)
    else Differ(b, c, d)
  }

  lemma LowOfOr(x: Long, y: Long)
    ensures Low(x | y) == Or32((x & 0xffffffff) as W32, (y & 0xffffffff) as W32)
  {
  }

  lemma LowOr(x: Long, y: Long)
    ensures Low(OrLong(x, y)) == Or32(Low(x), Low(y))
  {
    LowOfOr(x, y);
    assert OrLong(x, y) == x | y;
  }

  lemma LowOfShl1(x: Long)
    ensures Low((x << 1) & 0xfffffffe) == Shl1((x & 0xffffffff) as W32)
  {
  }

  lemma LowOfShr31(x: Long)
    ensures Low(((x >> 31) | ((0 - (x >> 63)) << 33)) & 0x00000001) == Shr31((x & 0xffffffff) as W32)
  {
  }

  lemma LowMaskedRotl1(x: Long)
    ensures Low(MaskedRotl1(x)) == Rotl1(Low(x))
  {
    LowOfShl1(x);
    assert MaskedShl1(x) == (x << 1) & 0xfffffffe;
    LowOfShr31(x);
    assert MaskedShr31(x) == ((x >> 31) | ((0 - (x >> 63)) << 33)) & 0x00000001;
    LowOr(MaskedShl1(x), MaskedShr31(x));
  }

  lemma LowOfShl5(x: Long)
    ensures Low((x << 5) & 0xffffffe0) == Shl5((x & 0xffffffff) as W32)
  {
  }

  lemma LowOfShr27(x: Long)
    ensures Low(((x >> 27) | ((0 - (x >> 63)) << 37)) & 0x0000001f) == Shr27((x & 0xffffffff) as W32)
  {
  }

  lemma LowMaskedRotl5(x: Long)
    ensures Low(MaskedRotl5(x)) == Rotl5(Low(x))
  {
    LowOfShl5(x);
    assert MaskedShl5(x) == (x << 5) & 0xffffffe0;
    LowOfShr27(x);
    assert MaskedShr27(x) == ((x >> 27) | ((0 - (x >> 63)) << 37)) & 0x0000001f;
    LowOr(MaskedShl5(x), MaskedShr27(x));
  }

  lemma LowOfShl30(x: Long)
    ensures Low((x << 30) & 0xc0000000) == Shl30((x & 0xffffffff) as W32)
  {
  }

  lemma LowOfShr2(x: Long)
    ensures Low(((x >> 2) | ((0 - (x >> 63)) << 62)) & 0x3fffffff) == Shr2((x & 0xffffffff) as W32)
  {
  }

  lemma LowMaskedRotl30(x: Long)
    ensures Low(MaskedRotl30(x)) == Rotl30(Low(x))
  {
    LowOfShl30(x);
    assert MaskedShl30(x) == (x << 30) & 0xc0000000;
    LowOfShr2(x);
    assert MaskedShr2(x) == ((x >> 2) | ((0 - (x >> 63)) << 62)) & 0x3fffffff;
    LowOr(MaskedShl30(x), MaskedShr2(x));
  }

  lemma LowXor4(a: Long, b: Long, c: Long, d: Long)
    ensures Low(XorLong4(a, b, c, d)) == Xor4(Low(a), Low(b), Low(c), Low(d))
  {
  }

  lemma LowOfSum(a: Long, b: Long)
    ensures Low(a + b) == Add((a & 0xffffffff) as W32, (b & 0xffffffff) as W32)
  {
  }

  lemma LowAdd(a: Long, b: Long)
    ensures Low(AddLong(a, b)) == Add(Low(a), Low(b))
  {
    LowOfSum(a, b);
    assert AddLong(a, b) == a + b;
  }

  lemma LowSum5(a: Long, b: Long, c: Long, d: Long, e: Long)
    ensures Low(Sum5Long(a, b, c, d, e)) == Sum5(Low(a), Low(b), Low(c), Low(d), Low(e))
  {
    var s2 := AddLong(a, b);
    var s3 := AddLong(s2, c);
    var s4 := AddLong(s3, d);
    LowAdd(a, b);
    LowAdd(s2, c);
    LowAdd(s3, d);
    LowAdd(s4, e);
  }

  lemma LowChoose(b: Long, c: Long, d: Long)
    ensures Low(Choose(b, c, d)) == Ch(Low(b), Low(c), Low(d))
  {
  }

  lemma LowDiffer(b: Long, c: Long, d: Long)
    ensures Low(Differ(b, c, d)) == Parity(Low(b), Low(c), Low(d))
  {
  }

  lemma LowAgree(b: Long, c: Long, d: Long)
    ensures Low(Agree(b, c, d)) == Maj(Low(b), Low(c), Low(d))
  {
  }

  lemma LowKTN(n: nat)
    ensures Low(KTN(n)) == K(n)
  {
  }

  lemma LowNLF(b: Long, c: Long, d: Long, n: nat)
    ensures Low(NLF(b, c, d, n)) == F(n, Low(b), Low(c), Low(d))
  {
    LowChoose(b, c, d);
    LowDiffer(b, c, d);
    LowAgree(b, c, d);
  }

  // ----- the two computations

  function ByteLong(x: W32): Long { (x as Long) & 0x00FF }

  /** Word of four message elements as ComputeSHA builds it: each masked to a byte. */
  function PackMasked(x0: W32, x1: W32, x2: W32, x3: W32): Long {
    (ByteLong(x0) << 24) | (ByteLong(x1) << 16) | (ByteLong(x2) << 8) | ByteLong(x3)
  }

  /** The same word as ComputeSHAEE builds it: shifted as unsigned 32-bit values, unmasked. */
  function PackPlain(x0: W32, x1: W32, x2: W32, x3: W32): W32 {
    (x0 << 24) | (x1 << 16) | (x2 << 8) | x3
  }

  function LowByte(x: W32): Byte { (x & 0xff) as Byte }

  lemma LowPackMasked(x0: W32, x1: W32, x2: W32, x3: W32)
    ensures Low(PackMasked(x0, x1, x2, x3)) == BigEndian(LowByte(x0), LowByte(x1), LowByte(x2), LowByte(x3))
  {
  }

  function Widen(x: W32): Long { x as Long }

  lemma LowWiden(x: W32)
    ensures Low(Widen(x)) == x
  {
  }

  /** The elements of MT as bytes. */
  function BytesOf(mt: seq<W32>): (block: seq<Byte>)
    ensures |block| == |mt|
  {
    seq(|mt|, i requires 0 <= i < |mt| => LowByte(mt[i]))
  }

  function PlainWords(mt: seq<W32>): (words: seq<W32>)
    requires |mt| == 64
    ensures |words| == 16
  {
    seq(16, i requires 0 <= i < 16 => PackPlain(mt[4 * i], mt[4 * i + 1], mt[4 * i + 2], mt[4 * i + 3]))
  }

  predicate IsByte(x: W32) { x < 0x100 }

  lemma PackPlainOfBytes(x0: W32, x1: W32, x2: W32, x3: W32)
    requires IsByte(x0) && IsByte(x1) && IsByte(x2) && IsByte(x3)
    ensures PackPlain(x0, x1, x2, x3) == BigEndian(LowByte(x0), LowByte(x1), LowByte(x2), LowByte(x3))
  {
  }

  lemma TwinsAgreeAt(mt: seq<W32>, i: nat)
    requires |mt| == 64 && i < 16 && IsByte(mt[4 * i]) && IsByte(mt[4 * i + 1]) && IsByte(mt[4 * i + 2])
             && IsByte(mt[4 * i + 3])
    ensures PlainWords(mt)[i] == WordsOf(BytesOf(mt))[i]
  {
    PackPlainOfBytes(mt[4 * i], mt[4 * i + 1], mt[4 * i + 2], mt[4 * i + 3]);
    var b := BytesOf(mt);
    assert b[4 * i] == LowByte(mt[4 * i]) && b[4 * i + 1] == LowByte(mt[4 * i + 1]);
    assert b[4 * i + 2] == LowByte(mt[4 * i + 2]) && b[4 * i + 3] == LowByte(mt[4 * i + 3]);
  }

  /** On a block of bytes both computations work on the same sixteen words. */
  lemma TwinsAgreeOnBytes(mt: seq<W32>)
    requires |mt| == 64 && forall i | 0 <= i < 64 :: IsByte(mt[i])
    ensures PlainWords(mt) == WordsOf(BytesOf(mt))
  {
    forall i | 0 <= i < 16
      ensures PlainWords(mt)[i] == WordsOf(BytesOf(mt))[i]
    {
      TwinsAgreeAt(mt, i);
    }
  }

  /** There is a block with an element wider than a byte on which they differ: the mask is what
      ComputeSHAEE leaves out. */
  lemma TwinsDifferOnWideElements()
    ensures exists mt: seq<W32> :: |mt| == 64 && PlainWords(mt) != WordsOf(BytesOf(mt))
  {
    var mt: seq<W32> := seq(64, i => if i == 3 then 0x100 else 0);
    assert PlainWords(mt)[0] == PackPlain(0, 0, 0, 0x100);
    assert WordsOf(BytesOf(mt))[0] == BigEndian(0, 0, 0, 0);
  }

  ghost predicate LowRegs(a: Long, b: Long, c: Long, d: Long, e: Long, r: Regs) {
    Low(a) == r.a && Low(b) == r.b && Low(c) == r.c && Low(d) == r.d && Low(e) == r.e
  }

  /** Expands the message schedule in place: words 16..79 from words 0..15. */
  method Expand(mtword: array<Long>, ghost words: seq<W32>)
    requires mtword.Length == 80 && |words| == 16
    requires forall i | 0 <= i < 16 :: Low(mtword[i]) == words[i]
    modifies mtword
    ensures forall i | 0 <= i < 80 :: Low(mtword[i]) == Schedule(words, i)
  {
    for i := 16 to 80
      invariant forall j | 0 <= j < i :: Low(mtword[j]) == Schedule(words, j)
    {
      var shftTmp := XorLong4(mtword[i - 3], mtword[i - 8], mtword[i - 14], mtword[i - 16]);
      LowXor4(mtword[i - 3], mtword[i - 8], mtword[i - 14], mtword[i - 16]);
      LowMaskedRotl1(shftTmp);
      mtword[i] := MaskedRotl1(shftTmp);
    }
  }

  /** One round on wide words is one round on their low halves. */
  lemma RoundOnLow(a: Long, b: Long, c: Long, d: Long, e: Long, n: nat, w: Long, r: Regs)
    requires LowRegs(a, b, c, d, e, r)
    ensures LowRegs(Sum5Long(NLF(b, c, d, n), e, KTN(n), w, MaskedRotl5(a)), a, MaskedRotl30(b), c, d,
                    Round(r, n, Low(w)))
  {
    LowNLF(b, c, d, n);
    LowKTN(n);
    LowMaskedRotl5(a);
    LowMaskedRotl30(b);
    LowSum5(NLF(b, c, d, n), e, KTN(n), w, MaskedRotl5(a));
    SumOrder(F(n, r.b, r.c, r.d), r.e, K(n), Low(w), Rotl5(r.a));
  }

  /** The code adds the five terms in another order than the standard. */
  lemma SumOrder(f: W32, e: W32, k: W32, w: W32, rot: W32)
    ensures Sum5(f, e, k, w, rot) == Sum5(rot, f, e, k, w)
  {
    AddComm(Add(Add(Add(f, e), k), w), rot);
    AddAssoc(rot, Add(Add(f, e), k), w);
    AddAssoc(rot, Add(f, e), k);
    AddAssoc(rot, f, e);
  }

  lemma AddComm(x: W32, y: W32)
    ensures Add(x, y) == Add(y, x)
  {
  }

  lemma AddAssoc(x: W32, y: W32, z: W32)
    ensures Add(x, Add(y, z)) == Add(Add(x, y), z)
  {
    assert Add(y, z) == y + z && Add(x, y) == x + y;
    assert Add(x, y + z) == Add(x + y, z);
  }

  /** The eighty rounds on wide words keep the low halves equal to the 32-bit working variables. */
  method RunRounds(mtword: array<Long>, ghost words: seq<W32>) returns (a: Long, b: Long, c: Long, d: Long, e: Long)
    requires mtword.Length == 80 && |words| == 16
    requires forall i | 0 <= i < 80 :: Low(mtword[i]) == Schedule(words, i)
    ensures LowRegs(a, b, c, d, e, Rounds(words, 80))
  {
    a, b, c, d, e := 0x67452301, 0xefcdab89, 0x98badcfe, 0x10325476, 0xc3d2e1f0;
    for i := 0 to 80
      invariant LowRegs(a, b, c, d, e, Rounds(words, i))
    {
      RoundOnLow(a, b, c, d, e, i, mtword[i], Rounds(words, i));
      var shftTmp := MaskedRotl5(a);
      var temp := Sum5Long(NLF(b, c, d, i), e, KTN(i), mtword[i], shftTmp);
      e := d;
      d := c;
      c := MaskedRotl30(b);
      b := a;
      a := temp;
    }
  }

  /** The block of the message "abc". */
  predicate IsAbcBlock(mt: seq<W32>) {
    && |mt| == 64 && mt[0] == 0x61 && mt[1] == 0x62 && mt[2] == 0x63 && mt[3] == 0x80 && mt[63] == 0x18
    && forall i | 4 <= i < 63 :: mt[i] == 0
  }

  /** The words of the example of FIPS 180-4 after eighty rounds. */
  predicate IsAbcAnswer(a: Long, b: Long, c: Long, d: Long, e: Long) {
    && a & 0xffffffff == 0x42541b35 && b & 0xffffffff == 0x5738d5e1 && c & 0xffffffff == 0x21834873
    && d & 0xffffffff == 0x681e6df6 && e & 0xffffffff == 0xd8fdf6ad
  }

  lemma AbcBytes(mt: seq<W32>)
    requires IsAbcBlock(mt)
    ensures BytesOf(mt) == ABC_BLOCK && forall i | 0 <= i < 64 :: IsByte(mt[i])
  {
    forall i | 0 <= i < 64
      ensures LowByte(mt[i]) == ABC_BLOCK[i] && IsByte(mt[i])
    {
      assert LowByte(0) == 0;
      assert 4 <= i < 63 ==> mt[i] == 0 && ABC_BLOCK[i] == 0;
    }
  }

  /** Whatever works out the rounds over that block comes to that answer. */
  lemma AbcAnswer(mt: seq<W32>, a: Long, b: Long, c: Long, d: Long, e: Long)
    requires IsAbcBlock(mt) && LowRegs(a, b, c, d, e, Rounds(WordsOf(BytesOf(mt)), 80))
    ensures IsAbcAnswer(a, b, c, d, e)
  {
    AbcBytes(mt);
    KnownAnswer();
    LowIsMasked(a);
    LowIsMasked(b);
    LowIsMasked(c);
    LowIsMasked(d);
    LowIsMasked(e);
  }

  lemma LowIsMasked(x: Long)
    ensures Widen(Low(x)) == x & 0xffffffff
  {
  }

  /** ComputeSHA: for every 64-element block the low halves of the five results are the working
      variables of FIPS 180-4 after all rounds, over the block's bytes. */
  method ComputeSHA(mt: array<W32>) returns (a: Long, b: Long, c: Long, d: Long, e: Long)
    requires mt.Length == 64
    ensures LowRegs(a, b, c, d, e, Rounds(WordsOf(BytesOf(mt[..])), 80))
    ensures IsAbcBlock(mt[..]) ==> IsAbcAnswer(a, b, c, d, e)
  {
    ghost var words := WordsOf(BytesOf(mt[..]));
    var mtword := new Long[80];
    for i := 0 to 16
      invariant forall j | 0 <= j < i :: Low(mtword[j]) == words[j]
    {
      LowPackMasked(mt[i * 4], mt[i * 4 + 1], mt[i * 4 + 2], mt[i * 4 + 3]);
      mtword[i] := PackMasked(mt[i * 4], mt[i * 4 + 1], mt[i * 4 + 2], mt[i * 4 + 3]);
    }
    Expand(mtword, words);
    a, b, c, d, e := RunRounds(mtword, words);
    if IsAbcBlock(mt[..]) {
      AbcAnswer(mt[..], a, b, c, d, e);
    }
  }

  /** ComputeSHAEE: the same rounds over words packed without masking. */
  method ComputeSHAEE(mt: array<W32>) returns (a: Long, b: Long, c: Long, d: Long, e: Long)
    requires mt.Length == 64
    ensures LowRegs(a, b, c, d, e, Rounds(PlainWords(mt[..]), 80))
    ensures IsAbcBlock(mt[..]) ==> IsAbcAnswer(a, b, c, d, e)
  {
    ghost var words := PlainWords(mt[..]);
    var mtword := new Long[80];
    for i := 0 to 16
      invariant forall j | 0 <= j < i :: Low(mtword[j]) == words[j]
    {
      LowWiden(PackPlain(mt[i * 4], mt[i * 4 + 1], mt[i * 4 + 2], mt[i * 4 + 3]));
      mtword[i] := Widen(PackPlain(mt[i * 4], mt[i * 4 + 1], mt[i * 4 + 2], mt[i * 4 + 3]));
    }
    Expand(mtword, words);
    a, b, c, d, e := RunRounds(mtword, words);
    if IsAbcBlock(mt[..]) {
      AbcBytes(mt[..]);
      TwinsAgreeOnBytes(mt[..]);
      AbcAnswer(mt[..], a, b, c, d, e);
    }
  }

  // ----- the message block and the MAC

  function BitLength(m: seq<Byte>): nat { 8 * |m| }

  /** The 64-bit big-endian bit length, for messages shorter than 2^13 bytes. */
  function LengthField(bits: nat): (r: seq<Byte>)
    requires bits < 0x10000
    ensures |r| == 8
  {
    [0, 0, 0, 0, 0, 0, OctetOf(bits / 256), OctetOf(bits % 256)]
  }

  lemma PadLength(n: nat)
    ensures (119 - n % 64) % 64 >= 0 && (n + 1 + (119 - n % 64) % 64 + 8) % 64 == 0
  {
    var q, r := n / 64, n % 64;
    assert n == 64 * q + r;
    if r < 56 {
      assert (119 - r) % 64 == 55 - r;
    } else {
      assert (119 - r) % 64 == 119 - r;
    }
  }

  /** Section 5.1.1 of FIPS 180-4 on whole bytes: a one bit, zeros up to 448 bits modulo 512, the length. */
  function Pad(m: seq<Byte>): (r: seq<Byte>)
    requires |m| < 0x2000
    ensures |r| % 64 == 0
  {
    PadLength(|m|);
    m + [0x80] + seq((119 - |m| % 64) % 64, _ => 0) + LengthField(BitLength(m))
  }

  function WordBytes(x: W32): (r: seq<Byte>)
    ensures |r| == 4
  {
    [(x & 0xff) as Byte, ((x >> 8) & 0xff) as Byte, ((x >> 16) & 0xff) as Byte, ((x >> 24) & 0xff) as Byte]
  }

  /** The MAC as it is sent: the words E, D, C, B, A, each low byte first. */
  function MacOf(r: Regs): (mac: seq<Byte>)
    ensures |mac| == 20
  {
    WordBytes(r.e) + WordBytes(r.d) + WordBytes(r.c) + WordBytes(r.b) + WordBytes(r.a)
  }

  /** The four bytes of a word, the low one first. */
  predicate IsLowFirst(mac: seq<Byte>, at: nat, x: W32)
    requires at + 4 <= |mac|
  {
    && mac[at] == (x & 0xff) as Byte && mac[at + 1] == ((x >> 8) & 0xff) as Byte
    && mac[at + 2] == ((x >> 16) & 0xff) as Byte && mac[at + 3] == ((x >> 24) & 0xff) as Byte
  }

  lemma MacByIndex(r: Regs)
    ensures var mac := MacOf(r);
            && IsLowFirst(mac, 0, r.e) && IsLowFirst(mac, 4, r.d) && IsLowFirst(mac, 8, r.c)
            && IsLowFirst(mac, 12, r.b) && IsLowFirst(mac, 16, r.a)
  {
  }

  function Asr8(x: Long): Long { (x >> 8) | ((0 - (x >> 63)) << 56) }

  function ByteLow(x: Long): Byte { (x & 0x000000FF) as Byte }

  function Shifted(x: Long, n: nat): Long {
    if n == 0 then x else Asr8(Shifted(x, n - 1))
  }

  lemma ByteOfShifted(x: Long, n: nat)
    requires n < 4
    ensures ByteLow(Shifted(x, n)) == WordBytes(Low(x))[n]
  {
    if n == 0 {
    } else if n == 1 {
      assert Shifted(x, 1) == Asr8(x);
    } else if n == 2 {
      assert Shifted(x, 1) == Asr8(x);
      assert Shifted(x, 2) == Asr8(Asr8(x));
    } else {
      assert Shifted(x, 1) == Asr8(x);
      assert Shifted(x, 2) == Asr8(Asr8(x));
      assert Shifted(x, 3) == Asr8(Asr8(Asr8(x)));
    }
  }

  /** Serialises one result word, low byte first, by masking and shifting. */
  method SendWord(word: Long) returns (sent: seq<Byte>)
    ensures sent == WordBytes(Low(word))
  {
    var temp := word;
    sent := [];
    for i := 0 to 4
      invariant temp == Shifted(word, i) && sent == WordBytes(Low(word))[..i]
    {
      ByteOfShifted(word, i);
      sent := sent + [ByteLow(temp)];
      temp := Asr8(temp);
    }
  }

  // ----- the copy-scratchpad message

  /** The 55-byte message whose MAC authorises copying a scratchpad row into a page. */
  function CopyMessage(secret: seq<Byte>, page: seq<Byte>, scratch: seq<Byte>, pageNumber: Byte,
                       rom: seq<Byte>): (m: seq<Byte>)
    requires |secret| == 8 && |page| >= 28 && |scratch| == 8 && |rom| >= 7
    ensures |m| == 55
  {
    secret[..4] + page[..28] + scratch + [pageNumber] + rom[..7] + secret[4..] + [0xff, 0xff, 0xff]
  }

  /** A 55-byte message pads to one block: the end marker, six zero bytes and 0x01B8, its length in bits. */
  lemma PadOneBlock(m: seq<Byte>)
    requires |m| == 55
    ensures Pad(m) == m + [0x80] + [0, 0, 0, 0, 0, 0] + [0x01, 0xB8]
  {
  }

  /** The MAC of a copy: SHA-1 without the final addition over the padded message. */
  function CopyMac(secret: seq<Byte>, page: seq<Byte>, scratch: seq<Byte>, pageNumber: Byte,
                   rom: seq<Byte>): (mac: seq<Byte>)
    requires |secret| == 8 && |page| >= 28 && |scratch| == 8 && |rom| >= 7
    ensures |mac| == 20
  {
    var m := CopyMessage(secret, page, scratch, pageNumber, rom);
    PadOneBlock(m);
    MacOf(Rounds(WordsOf(Pad(m)), 80))
  }

  /** Element i of the block copySpad hashes: the first half of the secret, the first 28 bytes of the page,
      the scratchpad, the page number, the serial number without its last byte, the second half of the
      secret, three times 0xFF, the end marker, zeros and the length of 440 bits. */
  function BlockByte(secret: seq<Byte>, page: seq<Byte>, scratch: seq<Byte>, pageNumber: Byte, rom: seq<Byte>,
                     i: nat): Byte
    requires |secret| == 8 && |page| >= 28 && |scratch| == 8 && |rom| >= 7 && i < 64
  {
    if i < 4 then secret[i]
    else if i < 32 then page[i - 4]
    else if i < 40 then scratch[i - 32]
    else if i == 40 then pageNumber
    else if i < 48 then rom[i - 41]
    else if i < 52 then secret[i - 44]
    else if i < 55 then 0xFF
    else if i == 55 then 0x80
    else if i == 62 then 0x01
    else if i == 63 then 0xB8
    else 0
  }

  lemma BlockByIndex(secret: seq<Byte>, page: seq<Byte>, scratch: seq<Byte>, pageNumber: Byte, rom: seq<Byte>,
                     m: seq<Byte>, block: seq<Byte>)
    requires |secret| == 8 && |page| >= 28 && |scratch| == 8 && |rom| >= 7
    requires m == CopyMessage(secret, page, scratch, pageNumber, rom)
    requires block == m + [0x80] + [0, 0, 0, 0, 0, 0] + [0x01, 0xB8]
    ensures |block| == 64
    ensures forall i | 0 <= i < 64 :: block[i] == BlockByte(secret, page, scratch, pageNumber, rom, i)
  {
  }

  /** The MAC of a copy, byte by byte: the working variables after all rounds over that block, E first and A
      last, each with its low byte first. */
  lemma CopyMacByIndex(secret: seq<Byte>, page: seq<Byte>, scratch: seq<Byte>, pageNumber: Byte, rom: seq<Byte>)
      returns (block: seq<Byte>, r: Regs)
    requires |secret| == 8 && |page| >= 28 && |scratch| == 8 && |rom| >= 7
    ensures |block| == 64 && r == Rounds(WordsOf(block), 80)
    ensures forall i | 0 <= i < 64 :: block[i] == BlockByte(secret, page, scratch, pageNumber, rom, i)
    ensures var mac := CopyMac(secret, page, scratch, pageNumber, rom);
            && IsLowFirst(mac, 0, r.e) && IsLowFirst(mac, 4, r.d) && IsLowFirst(mac, 8, r.c)
            && IsLowFirst(mac, 12, r.b) && IsLowFirst(mac, 16, r.a)
  {
    var m := CopyMessage(secret, page, scratch, pageNumber, rom);
    PadOneBlock(m);
    block := m + [0x80] + [0, 0, 0, 0, 0, 0] + [0x01, 0xB8];
    BlockByIndex(secret, page, scratch, pageNumber, rom, m, block);
    r := Rounds(WordsOf(block), 80);
    MacByIndex(r);
  }

  /** Extends the filled part of the block MT, which ends at `at`, by the given bytes. */
  method PutBytes(mt: array<W32>, at: nat, data: seq<Byte>)
    requires at + |data| <= mt.Length
    modifies mt
    ensures BytesOf(mt[..])[..at + |data|] == BytesOf(old(mt[..]))[..at] + data
  {
    for i := 0 to |data|
      invariant forall j | 0 <= j < at :: mt[j] == old(mt[j])
      invariant forall j | 0 <= j < i :: mt[at + j] == Wide(data[j])
    {
      mt[at + i] := Wide(data[i]);
    }
    forall b: Byte
      ensures LowByte(Wide(b)) == b
    {
      WideByte(b);
    }
  }

  function Wide(b: Byte): W32 { b as W32 }

  lemma WideByte(b: Byte)
    ensures LowByte(Wide(b)) == b && IsByte(Wide(b))
  {
  }

  /** Fills in the message itself, the first 55 elements. */
  method FillMessage(mt: array<W32>, secret: seq<Byte>, page: seq<Byte>, scratch: seq<Byte>, pageNumber: Byte,
                     rom: seq<Byte>)
    requires mt.Length == 64 && |secret| == 8 && |page| >= 28 && |scratch| == 8 && |rom| >= 7
    modifies mt
    ensures BytesOf(mt[..])[..55] == CopyMessage(secret, page, scratch, pageNumber, rom)
  {
    PutBytes(mt, 0, secret[..4]);
    PutBytes(mt, 4, page[..28]);
    PutBytes(mt, 32, scratch);
    PutBytes(mt, 40, [pageNumber]);
    PutBytes(mt, 41, rom[..7]);
    PutBytes(mt, 48, secret[4..]);
    PutBytes(mt, 52, [0xff, 0xff, 0xff]);
  }

  /** Builds the message block copySpad hashes, piece by piece. */
  method BuildBlock(secret: seq<Byte>, page: seq<Byte>, scratch: seq<Byte>, pageNumber: Byte, rom: seq<Byte>)
      returns (mt: array<W32>)
    requires |secret| == 8 && |page| >= 28 && |scratch| == 8 && |rom| >= 7
    ensures fresh(mt) && mt.Length == 64
    ensures BytesOf(mt[..]) == Pad(CopyMessage(secret, page, scratch, pageNumber, rom))
  {
    mt := new W32[64](_ => 0);
    FillMessage(mt, secret, page, scratch, pageNumber, rom);
    PutBytes(mt, 55, [0x80]);
    PutBytes(mt, 56, [0, 0, 0, 0, 0, 0]);
    PutBytes(mt, 62, [0x01, 0xB8]);
    PadOneBlock(CopyMessage(secret, page, scratch, pageNumber, rom));
    assert BytesOf(mt[..]) == BytesOf(mt[..])[..64];
  }

  /** The MAC copySpad sends: the hash of its message block, each word low byte first. */
  method BuildCopyMac(secret: seq<Byte>, page: seq<Byte>, scratch: seq<Byte>, pageNumber: Byte, rom: seq<Byte>)
      returns (mac: seq<Byte>)
    requires |secret| == 8 && |page| >= 28 && |scratch| == 8 && |rom| >= 7
    ensures mac == CopyMac(secret, page, scratch, pageNumber, rom)
  {
    var mt := BuildBlock(secret, page, scratch, pageNumber, rom);
    var a, b, c, d, e := ComputeSHA(mt);
    var se := SendWord(e);
    var sd := SendWord(d);
    var sc := SendWord(c);
    var sb := SendWord(b);
    var sa := SendWord(a);
    mac := se + sd + sc + sb + sa;
  }
}
