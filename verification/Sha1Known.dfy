/** A known answer: the example of FIPS 180-4 for the message "abc", word by word of the message schedule
    and round by round. */
module Sha1Known {
  import opened Bytes
  import opened Sha1Spec

  /** "abc", the end marker, zeros, and the length of 24 bits. */
  const ABC_BLOCK: seq<Byte> := [0x61, 0x62, 0x63, 0x80] + seq(59, _ => 0) + [0x18]

  /** The same as words. */
  predicate IsAbc(words: seq<W32>) {
    |words| == 16 && words[0] == 0x61626380 && words[15] == 0x18 && forall i | 1 <= i < 15 :: words[i] == 0
  }

  lemma AbcWords()
    ensures |ABC_BLOCK| == 64 && IsAbc(WordsOf(ABC_BLOCK))
  {
    var b := ABC_BLOCK;
    assert BigEndian(b[0], b[1], b[2], b[3]) == 0x61626380;
    assert BigEndian(b[60], b[61], b[62], b[63]) == 0x18;
    forall i | 1 <= i < 15
      ensures WordsOf(b)[i] == 0
    {
      assert BigEndian(b[4 * i], b[4 * i + 1], b[4 * i + 2], b[4 * i + 3]) == BigEndian(0, 0, 0, 0);
    }
  }

  lemma Words0(words: seq<W32>)
    requires IsAbc(words)
    ensures Schedule(words, 0) == 0x61626380 && Schedule(words, 1) == 0x00000000
    ensures Schedule(words, 2) == 0x00000000 && Schedule(words, 3) == 0x00000000
    ensures Schedule(words, 4) == 0x00000000 && Schedule(words, 5) == 0x00000000
    ensures Schedule(words, 6) == 0x00000000 && Schedule(words, 7) == 0x00000000
    ensures Schedule(words, 8) == 0x00000000 && Schedule(words, 9) == 0x00000000
    ensures Schedule(words, 10) == 0x00000000 && Schedule(words, 11) == 0x00000000
    ensures Schedule(words, 12) == 0x00000000 && Schedule(words, 13) == 0x00000000
    ensures Schedule(words, 14) == 0x00000000 && Schedule(words, 15) == 0x00000018
  {
  }

  lemma Words16(words: seq<W32>)
    requires IsAbc(words)
    ensures Schedule(words, 16) == 0xc2c4c700 && Schedule(words, 17) == 0x00000000
    ensures Schedule(words, 18) == 0x00000030 && Schedule(words, 19) == 0x85898e01
    ensures Schedule(words, 20) == 0x00000000 && Schedule(words, 21) == 0x00000060
    ensures Schedule(words, 22) == 0x0b131c03 && Schedule(words, 23) == 0x00000030
    ensures Schedule(words, 24) == 0x85898ec1 && Schedule(words, 25) == 0x16263806
    ensures Schedule(words, 26) == 0x00000000 && Schedule(words, 27) == 0x00000180
    ensures Schedule(words, 28) == 0x2c4c700c && Schedule(words, 29) == 0x000000f0
    ensures Schedule(words, 30) == 0x93afb507 && Schedule(words, 31) == 0x5898e048
  {
  }

  lemma Words32(words: seq<W32>)
    requires IsAbc(words)
    ensures Schedule(words, 32) == 0x8e9a9202 && Schedule(words, 33) == 0x00000600
    ensures Schedule(words, 34) == 0xb131c0f0 && Schedule(words, 35) == 0x16263bc6
    ensures Schedule(words, 36) == 0x4ebed41e && Schedule(words, 37) == 0x626380a1
    ensures Schedule(words, 38) == 0x16263806 && Schedule(words, 39) == 0x000018c0
    ensures Schedule(words, 40) == 0xd2e138c4 && Schedule(words, 41) == 0x00000f00
    ensures Schedule(words, 42) == 0x3afb5079 && Schedule(words, 43) == 0x898e04e5
    ensures Schedule(words, 44) == 0xe2ba3c2b && Schedule(words, 45) == 0x000060c0
    ensures Schedule(words, 46) == 0x053a37cd && Schedule(words, 47) == 0x74458547
  {
    Words16(words);
  }

  lemma Words48(words: seq<W32>)
    requires IsAbc(words)
    ensures Schedule(words, 48) == 0xda9415ed && Schedule(words, 49) == 0x26380a16
    ensures Schedule(words, 50) == 0x626383a1 && Schedule(words, 51) == 0x4ebf54de
    ensures Schedule(words, 52) == 0x3835b44b && Schedule(words, 53) == 0x0000f600
    ensures Schedule(words, 54) == 0x1e84c7a3 && Schedule(words, 55) == 0x98e04d98
    ensures Schedule(words, 56) == 0x651d16a0 && Schedule(words, 57) == 0x62658ca1
    ensures Schedule(words, 58) == 0x458544d6 && Schedule(words, 59) == 0x44584cb7
    ensures Schedule(words, 60) == 0x7ba06619 && Schedule(words, 61) == 0x6380aea2
    ensures Schedule(words, 62) == 0x0ae55269 && Schedule(words, 63) == 0x627b49a1
  {
    Words32(words);
  }

  lemma Words64(words: seq<W32>)
    requires IsAbc(words)
    ensures Schedule(words, 64) == 0x7cd45c9d && Schedule(words, 65) == 0x000f0000
    ensures Schedule(words, 66) == 0xfb50753a && Schedule(words, 67) == 0xec6765e8
    ensures Schedule(words, 68) == 0xba3c2be2 && Schedule(words, 69) == 0x0060c000
    ensures Schedule(words, 70) == 0x3a37cd05 && Schedule(words, 71) == 0x458546f4
    ensures Schedule(words, 72) == 0xb8599dd6 && Schedule(words, 73) == 0x380a1a26
    ensures Schedule(words, 74) == 0x01e02203 && Schedule(words, 75) == 0xe7cc3456
    ensures Schedule(words, 76) == 0xe6e60b69 && Schedule(words, 77) == 0x00f60a00
    ensures Schedule(words, 78) == 0x5795ef4f && Schedule(words, 79) == 0x822e0879
  {
    Words48(words);
  }

  lemma RoundsFrom0(words: seq<W32>, n: nat)
    requires IsAbc(words) && n == 0
    requires Rounds(words, n) == Regs(0x67452301, 0xefcdab89, 0x98badcfe, 0x10325476, 0xc3d2e1f0)
    ensures Rounds(words, n + 8) == Regs(0x9e8c07d4, 0x993e30c1, 0x0ff1f290, 0xb3f52677, 0xf3763846)
  {
    Words0(words);
    assert Rounds(words, n + 1) == Regs(0x0116fc33, 0x67452301, 0x7bf36ae2, 0x98badcfe, 0x10325476);
    assert Rounds(words, n + 2) == Regs(0x8990536d, 0x0116fc33, 0x59d148c0, 0x7bf36ae2, 0x98badcfe);
    assert Rounds(words, n + 3) == Regs(0xa1390f08, 0x8990536d, 0xc045bf0c, 0x59d148c0, 0x7bf36ae2);
    assert Rounds(words, n + 4) == Regs(0xcdd8e11b, 0xa1390f08, 0x626414db, 0xc045bf0c, 0x59d148c0);
    assert Rounds(words, n + 5) == Regs(0xcfd499de, 0xcdd8e11b, 0x284e43c2, 0x626414db, 0xc045bf0c);
    assert Rounds(words, n + 6) == Regs(0x3fc7ca40, 0xcfd499de, 0xf3763846, 0x284e43c2, 0x626414db);
    assert Rounds(words, n + 7) == Regs(0x993e30c1, 0x3fc7ca40, 0xb3f52677, 0xf3763846, 0x284e43c2);
  }

  lemma RoundsFrom8(words: seq<W32>, n: nat)
    requires IsAbc(words) && n == 8
    requires Rounds(words, n) == Regs(0x9e8c07d4, 0x993e30c1, 0x0ff1f290, 0xb3f52677, 0xf3763846)
    ensures Rounds(words, n + 8) == Regs(0x20bdd62f, 0x196bee77, 0x644a3da5, 0x1181ed99, 0x18c623f9)
  {
    Words0(words);
    assert Rounds(words, n + 1) == Regs(0x4b6ae328, 0x9e8c07d4, 0x664f8c30, 0x0ff1f290, 0xb3f52677);
    assert Rounds(words, n + 2) == Regs(0x8351f929, 0x4b6ae328, 0x27a301f5, 0x664f8c30, 0x0ff1f290);
    assert Rounds(words, n + 3) == Regs(0xfbda9e89, 0x8351f929, 0x12dab8ca, 0x27a301f5, 0x664f8c30);
    assert Rounds(words, n + 4) == Regs(0x63188fe4, 0xfbda9e89, 0x60d47e4a, 0x12dab8ca, 0x27a301f5);
    assert Rounds(words, n + 5) == Regs(0x4607b664, 0x63188fe4, 0x7ef6a7a2, 0x60d47e4a, 0x12dab8ca);
    assert Rounds(words, n + 6) == Regs(0x9128f695, 0x4607b664, 0x18c623f9, 0x7ef6a7a2, 0x60d47e4a);
    assert Rounds(words, n + 7) == Regs(0x196bee77, 0x9128f695, 0x1181ed99, 0x18c623f9, 0x7ef6a7a2);
  }

  lemma RoundsFrom16(words: seq<W32>, n: nat)
    requires IsAbc(words) && n == 16
    requires Rounds(words, n) == Regs(0x20bdd62f, 0x196bee77, 0x644a3da5, 0x1181ed99, 0x18c623f9)
    ensures Rounds(words, n + 8) == Regs(0xd541f12d, 0x21283486, 0x0ce88eff, 0x868dec32, 0x7f67875f)
  {
    Words16(words);
    assert Rounds(words, n + 1) == Regs(0x4e925823, 0x20bdd62f, 0xc65afb9d, 0x644a3da5, 0x1181ed99);
    assert Rounds(words, n + 2) == Regs(0x82aa6728, 0x4e925823, 0xc82f758b, 0xc65afb9d, 0x644a3da5);
    assert Rounds(words, n + 3) == Regs(0xdc64901d, 0x82aa6728, 0xd3a49608, 0xc82f758b, 0xc65afb9d);
    assert Rounds(words, n + 4) == Regs(0xfd9e1d7d, 0xdc64901d, 0x20aa99ca, 0xd3a49608, 0xc82f758b);
    assert Rounds(words, n + 5) == Regs(0x1a37b0ca, 0xfd9e1d7d, 0x77192407, 0x20aa99ca, 0xd3a49608);
    assert Rounds(words, n + 6) == Regs(0x33a23bfc, 0x1a37b0ca, 0x7f67875f, 0x77192407, 0x20aa99ca);
    assert Rounds(words, n + 7) == Regs(0x21283486, 0x33a23bfc, 0x868dec32, 0x7f67875f, 0x77192407);
  }

  lemma RoundsFrom24(words: seq<W32>, n: nat)
    requires IsAbc(words) && n == 24
    requires Rounds(words, n) == Regs(0xd541f12d, 0x21283486, 0x0ce88eff, 0x868dec32, 0x7f67875f)
    ensures Rounds(words, n + 8) == Regs(0x3b845d33, 0x1267b407, 0x717eebd7, 0xa0dc2d4b, 0xd2aa1365)
  {
    Words16(words);
    assert Rounds(words, n + 1) == Regs(0xc7567dc6, 0xd541f12d, 0x884a0d21, 0x0ce88eff, 0x868dec32);
    assert Rounds(words, n + 2) == Regs(0x48413ba4, 0xc7567dc6, 0x75507c4b, 0x884a0d21, 0x0ce88eff);
    assert Rounds(words, n + 3) == Regs(0xbe35fbd5, 0x48413ba4, 0xb1d59f71, 0x75507c4b, 0x884a0d21);
    assert Rounds(words, n + 4) == Regs(0x4aa84d97, 0xbe35fbd5, 0x12104ee9, 0xb1d59f71, 0x75507c4b);
    assert Rounds(words, n + 5) == Regs(0x8370b52e, 0x4aa84d97, 0x6f8d7ef5, 0x12104ee9, 0xb1d59f71);
    assert Rounds(words, n + 6) == Regs(0xc5fbaf5d, 0x8370b52e, 0xd2aa1365, 0x6f8d7ef5, 0x12104ee9);
    assert Rounds(words, n + 7) == Regs(0x1267b407, 0xc5fbaf5d, 0xa0dc2d4b, 0xd2aa1365, 0x6f8d7ef5);
  }

  lemma RoundsFrom32(words: seq<W32>, n: nat)
    requires IsAbc(words) && n == 32
    requires Rounds(words, n) == Regs(0x3b845d33, 0x1267b407, 0x717eebd7, 0xa0dc2d4b, 0xd2aa1365)
    ensures Rounds(words, n + 8) == Regs(0x32de1cba, 0x4c986405, 0xf718e5cf, 0x03d447f6, 0xf72eec32)
  {
    Words32(words);
    assert Rounds(words, n + 1) == Regs(0x046faa0a, 0x3b845d33, 0xc499ed01, 0x717eebd7, 0xa0dc2d4b);
    assert Rounds(words, n + 2) == Regs(0x2c0ebc11, 0x046faa0a, 0xcee1174c, 0xc499ed01, 0x717eebd7);
    assert Rounds(words, n + 3) == Regs(0x21796ad4, 0x2c0ebc11, 0x811bea82, 0xcee1174c, 0xc499ed01);
    assert Rounds(words, n + 4) == Regs(0xdcbbb0cb, 0x21796ad4, 0x4b03af04, 0x811bea82, 0xcee1174c);
    assert Rounds(words, n + 5) == Regs(0x0f511fd8, 0xdcbbb0cb, 0x085e5ab5, 0x4b03af04, 0x811bea82);
    assert Rounds(words, n + 6) == Regs(0xdc63973f, 0x0f511fd8, 0xf72eec32, 0x085e5ab5, 0x4b03af04);
    assert Rounds(words, n + 7) == Regs(0x4c986405, 0xdc63973f, 0x03d447f6, 0xf72eec32, 0x085e5ab5);
  }

  lemma RoundsFrom40(words: seq<W32>, n: nat)
    requires IsAbc(words) && n == 40
    requires Rounds(words, n) == Regs(0x32de1cba, 0x4c986405, 0xf718e5cf, 0x03d447f6, 0xf72eec32)
    ensures Rounds(words, n + 8) == Regs(0xbead02ca, 0xa01b846c, 0x8714787c, 0x503ca382, 0xfb86c6ab)
  {
    Words32(words);
    assert Rounds(words, n + 1) == Regs(0xfc87dedf, 0x32de1cba, 0x53261901, 0xf718e5cf, 0x03d447f6);
    assert Rounds(words, n + 2) == Regs(0x970a0d5c, 0xfc87dedf, 0x8cb7872e, 0x53261901, 0xf718e5cf);
    assert Rounds(words, n + 3) == Regs(0x7f193dc5, 0x970a0d5c, 0xff21f7b7, 0x8cb7872e, 0x53261901);
    assert Rounds(words, n + 4) == Regs(0xee1b1aaf, 0x7f193dc5, 0x25c28357, 0xff21f7b7, 0x8cb7872e);
    assert Rounds(words, n + 5) == Regs(0x40f28e09, 0xee1b1aaf, 0x5fc64f71, 0x25c28357, 0xff21f7b7);
    assert Rounds(words, n + 6) == Regs(0x1c51e1f2, 0x40f28e09, 0xfb86c6ab, 0x5fc64f71, 0x25c28357);
    assert Rounds(words, n + 7) == Regs(0xa01b846c, 0x1c51e1f2, 0x503ca382, 0xfb86c6ab, 0x5fc64f71);
  }

  lemma RoundsFrom48(words: seq<W32>, n: nat)
    requires IsAbc(words) && n == 48
    requires Rounds(words, n) == Regs(0xbead02ca, 0xa01b846c, 0x8714787c, 0x503ca382, 0xfb86c6ab)
    ensures Rounds(words, n + 8) == Regs(0x5e6456af, 0x7b71f76d, 0x09fa7c76, 0x792410db, 0x8e11eb59)
  {
    Words48(words);
    assert Rounds(words, n + 1) == Regs(0xbaf39337, 0xbead02ca, 0x2806e11b, 0x8714787c, 0x503ca382);
    assert Rounds(words, n + 2) == Regs(0x120731c5, 0xbaf39337, 0xafab40b2, 0x2806e11b, 0x8714787c);
    assert Rounds(words, n + 3) == Regs(0x641db2ce, 0x120731c5, 0xeebce4cd, 0xafab40b2, 0x2806e11b);
    assert Rounds(words, n + 4) == Regs(0x3847ad66, 0x641db2ce, 0x4481cc71, 0xeebce4cd, 0xafab40b2);
    assert Rounds(words, n + 5) == Regs(0xe490436d, 0x3847ad66, 0x99076cb3, 0x4481cc71, 0xeebce4cd);
    assert Rounds(words, n + 6) == Regs(0x27e9f1d8, 0xe490436d, 0x8e11eb59, 0x99076cb3, 0x4481cc71);
    assert Rounds(words, n + 7) == Regs(0x7b71f76d, 0x27e9f1d8, 0x792410db, 0x8e11eb59, 0x99076cb3);
  }

  lemma RoundsFrom56(words: seq<W32>, n: nat)
    requires IsAbc(words) && n == 56
    requires Rounds(words, n) == Regs(0x5e6456af, 0x7b71f76d, 0x09fa7c76, 0x792410db, 0x8e11eb59)
    ensures Rounds(words, n + 8) == Regs(0x6b61c9e1, 0xb66c020b, 0x9523272c, 0xf5d5b051, 0x8fd4b796)
  {
    Words48(words);
    assert Rounds(words, n + 1) == Regs(0xc846093f, 0x5e6456af, 0x5edc7ddb, 0x09fa7c76, 0x792410db);
    assert Rounds(words, n + 2) == Regs(0xd262ff50, 0xc846093f, 0xd79915ab, 0x5edc7ddb, 0x09fa7c76);
    assert Rounds(words, n + 3) == Regs(0x09d785fd, 0xd262ff50, 0xf211824f, 0xd79915ab, 0x5edc7ddb);
    assert Rounds(words, n + 4) == Regs(0x3f52de5a, 0x09d785fd, 0x3498bfd4, 0xf211824f, 0xd79915ab);
    assert Rounds(words, n + 5) == Regs(0xd756c147, 0x3f52de5a, 0x4275e17f, 0x3498bfd4, 0xf211824f);
    assert Rounds(words, n + 6) == Regs(0x548c9cb2, 0xd756c147, 0x8fd4b796, 0x4275e17f, 0x3498bfd4);
    assert Rounds(words, n + 7) == Regs(0xb66c020b, 0x548c9cb2, 0xf5d5b051, 0x8fd4b796, 0x4275e17f);
  }

  lemma RoundsFrom64(words: seq<W32>, n: nat)
    requires IsAbc(words) && n == 64
    requires Rounds(words, n) == Regs(0x6b61c9e1, 0xb66c020b, 0x9523272c, 0xf5d5b051, 0x8fd4b796)
    ensures Rounds(words, n + 8) == Regs(0x39859de7, 0xc199f8c7, 0x8fc96230, 0x125c24f0, 0xde37534a)
  {
    Words64(words);
    assert Rounds(words, n + 1) == Regs(0x19dfa7ac, 0x6b61c9e1, 0xed9b0082, 0x9523272c, 0xf5d5b051);
    assert Rounds(words, n + 2) == Regs(0x101655f9, 0x19dfa7ac, 0x5ad87278, 0xed9b0082, 0x9523272c);
    assert Rounds(words, n + 3) == Regs(0x0c3df2b4, 0x101655f9, 0x0677e9eb, 0x5ad87278, 0xed9b0082);
    assert Rounds(words, n + 4) == Regs(0x78dd4d2b, 0x0c3df2b4, 0x4405957e, 0x0677e9eb, 0x5ad87278);
    assert Rounds(words, n + 5) == Regs(0x497093c0, 0x78dd4d2b, 0x030f7cad, 0x4405957e, 0x0677e9eb);
    assert Rounds(words, n + 6) == Regs(0x3f2588c2, 0x497093c0, 0xde37534a, 0x030f7cad, 0x4405957e);
    assert Rounds(words, n + 7) == Regs(0xc199f8c7, 0x3f2588c2, 0x125c24f0, 0xde37534a, 0x030f7cad);
  }

  lemma RoundsFrom72(words: seq<W32>, n: nat)
    requires IsAbc(words) && n == 72
    requires Rounds(words, n) == Regs(0x39859de7, 0xc199f8c7, 0x8fc96230, 0x125c24f0, 0xde37534a)
    ensures Rounds(words, n + 8) == Regs(0x42541b35, 0x5738d5e1, 0x21834873, 0x681e6df6, 0xd8fdf6ad)
  {
    Words64(words);
    assert Rounds(words, n + 1) == Regs(0xedb42de4, 0x39859de7, 0xf0667e31, 0x8fc96230, 0x125c24f0);
    assert Rounds(words, n + 2) == Regs(0x11793f6f, 0xedb42de4, 0xce616779, 0xf0667e31, 0x8fc96230);
    assert Rounds(words, n + 3) == Regs(0x5ee76897, 0x11793f6f, 0x3b6d0b79, 0xce616779, 0xf0667e31);
    assert Rounds(words, n + 4) == Regs(0x63f7dab7, 0x5ee76897, 0xc45e4fdb, 0x3b6d0b79, 0xce616779);
    assert Rounds(words, n + 5) == Regs(0xa079b7d9, 0x63f7dab7, 0xd7b9da25, 0xc45e4fdb, 0x3b6d0b79);
    assert Rounds(words, n + 6) == Regs(0x860d21cc, 0xa079b7d9, 0xd8fdf6ad, 0xd7b9da25, 0xc45e4fdb);
    assert Rounds(words, n + 7) == Regs(0x5738d5e1, 0x860d21cc, 0x681e6df6, 0xd8fdf6ad, 0xd7b9da25);
  }

  /** The working variables after all rounds are those of the example. */
  lemma KnownAnswer()
    ensures |ABC_BLOCK| == 64
    ensures Rounds(WordsOf(ABC_BLOCK), 80) == Regs(0x42541b35, 0x5738d5e1, 0x21834873, 0x681e6df6, 0xd8fdf6ad)
  {
    AbcWords();
    var words := WordsOf(ABC_BLOCK);
    RoundsFrom0(words, 0);
    RoundsFrom8(words, 8);
    RoundsFrom16(words, 16);
    RoundsFrom24(words, 24);
    RoundsFrom32(words, 32);
    RoundsFrom40(words, 40);
    RoundsFrom48(words, 48);
    RoundsFrom56(words, 56);
    RoundsFrom64(words, 64);
    RoundsFrom72(words, 72);
  }
}
