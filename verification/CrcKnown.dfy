/** Known answers: the CRCs of the nine digits "123456789", by which CRC algorithms are told apart. */
module CrcKnown {
  import opened Bytes
  import opened CrcUtil

  const DIGITS: seq<Byte> := [0x31, 0x32, 0x33, 0x34, 0x35, 0x36, 0x37, 0x38, 0x39]

  lemma Crc16Digits()
    ensures Crc16Step(0x0000, 0x31) == 0xd4c1
    ensures Crc16Step(0xd4c1, 0x32) == 0x4594
    ensures Crc16Step(0x4594, 0x33) == 0xba04
    ensures Crc16Step(0xba04, 0x34) == 0x14ba
    ensures Crc16Step(0x14ba, 0x35) == 0xa455
    ensures Crc16Step(0xa455, 0x36) == 0x29e4
    ensures Crc16Step(0x29e4, 0x37) == 0x9d68
    ensures Crc16Step(0x9d68, 0x38) == 0x3c9d
    ensures Crc16Step(0x3c9d, 0x39) == 0xbb3d
  {
  }

  lemma Crc8FirstDigits()
    ensures Crc8Step(0x00, 0x31) == 0xe0
    ensures Crc8Step(0xe0, 0x32) == 0xeb
    ensures Crc8Step(0xeb, 0x33) == 0x95
    ensures Crc8Step(0x95, 0x34) == 0xf1
  {
  }

  lemma Crc8LastDigits()
    ensures Crc8Step(0xf1, 0x35) == 0xab
    ensures Crc8Step(0xab, 0x36) == 0xec
    ensures Crc8Step(0xec, 0x37) == 0x77
    ensures Crc8Step(0x77, 0x38) == 0x07
    ensures Crc8Step(0x07, 0x39) == 0xa1
  {
  }

  /** The CRC-16 is 0xBB3D, from a seed of 0. */
  lemma Crc16Known()
    ensures Crc16(0, DIGITS) == 0xBB3D
  {
    Crc16Digits();
    assert DIGITS[..0] == [] && DIGITS[..9] == DIGITS;
    assert DIGITS[..1][..0] == DIGITS[..0] && Crc16(0, DIGITS[..1]) == 0xd4c1;
    assert DIGITS[..2][..1] == DIGITS[..1] && Crc16(0, DIGITS[..2]) == 0x4594;
    assert DIGITS[..3][..2] == DIGITS[..2] && Crc16(0, DIGITS[..3]) == 0xba04;
    assert DIGITS[..4][..3] == DIGITS[..3] && Crc16(0, DIGITS[..4]) == 0x14ba;
    assert DIGITS[..5][..4] == DIGITS[..4] && Crc16(0, DIGITS[..5]) == 0xa455;
    assert DIGITS[..6][..5] == DIGITS[..5] && Crc16(0, DIGITS[..6]) == 0x29e4;
    assert DIGITS[..7][..6] == DIGITS[..6] && Crc16(0, DIGITS[..7]) == 0x9d68;
    assert DIGITS[..8][..7] == DIGITS[..7] && Crc16(0, DIGITS[..8]) == 0x3c9d;
    assert DIGITS[..9][..8] == DIGITS[..8] && Crc16(0, DIGITS[..9]) == 0xbb3d;
  }

  /** The CRC-8 is 0xA1, from a seed of 0. */
  lemma Crc8Known()
    ensures Crc8(0, DIGITS) == 0xA1
  {
    Crc8FirstDigits();
    Crc8LastDigits();
    assert DIGITS[..0] == [] && DIGITS[..9] == DIGITS;
    assert DIGITS[..1][..0] == DIGITS[..0] && Crc8(0, DIGITS[..1]) == 0xe0;
    assert DIGITS[..2][..1] == DIGITS[..1] && Crc8(0, DIGITS[..2]) == 0xeb;
    assert DIGITS[..3][..2] == DIGITS[..2] && Crc8(0, DIGITS[..3]) == 0x95;
    assert DIGITS[..4][..3] == DIGITS[..3] && Crc8(0, DIGITS[..4]) == 0xf1;
    assert DIGITS[..5][..4] == DIGITS[..4] && Crc8(0, DIGITS[..5]) == 0xab;
    assert DIGITS[..6][..5] == DIGITS[..5] && Crc8(0, DIGITS[..6]) == 0xec;
    assert DIGITS[..7][..6] == DIGITS[..6] && Crc8(0, DIGITS[..7]) == 0x77;
    assert DIGITS[..8][..7] == DIGITS[..7] && Crc8(0, DIGITS[..8]) == 0x07;
    assert DIGITS[..9][..8] == DIGITS[..8] && Crc8(0, DIGITS[..9]) == 0xa1;
  }
}
