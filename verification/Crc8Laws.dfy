/** CRC-8 is linear over exclusive-or, like CRC-16. */
module Crc8Laws {
  import opened Bytes
  import opened CrcUtil
  import opened CrcLaws

  lemma Shift8x8IsLinear(x: Byte, y: Byte)
    ensures Shift8x8(Xor8(x, y)) == Xor8(Shift8x8(x), Shift8x8(y))
  {
    var x1, y1 := Shift8(x), Shift8(y);
    var x2, y2 := Shift8(x1), Shift8(y1);
    var x3, y3 := Shift8(x2), Shift8(y2);
    var x4, y4 := Shift8(x3), Shift8(y3);
    var x5, y5 := Shift8(x4), Shift8(y4);
    var x6, y6 := Shift8(x5), Shift8(y5);
    var x7, y7 := Shift8(x6), Shift8(y6);
    Shift8IsLinear(x, y); Shift8IsLinear(x1, y1); Shift8IsLinear(x2, y2); Shift8IsLinear(x3, y3);
    Shift8IsLinear(x4, y4); Shift8IsLinear(x5, y5); Shift8IsLinear(x6, y6); Shift8IsLinear(x7, y7);
  }

  lemma Xor8Comm(a: Byte, b: Byte)
    ensures Xor8(a, b) == Xor8(b, a)
  {
  }

  lemma Xor8Shuffle(a: Byte, b: Byte, c: Byte, d: Byte)
    ensures Xor8(Xor8(a, b), Xor8(c, d)) == Xor8(Xor8(a, c), Xor8(b, d))
  {
    Xor8Assoc(Xor8(a, b), c, d);
    Xor8Assoc(a, b, c);
    Xor8Comm(b, c);
    Xor8Assoc(a, c, b);
    Xor8Assoc(Xor8(a, c), b, d);
  }

  lemma Step8IsLinear(c: Byte, d: Byte, x: Byte, y: Byte)
    ensures Crc8Step(Xor8(c, d), Xor8(x, y)) == Xor8(Crc8Step(c, x), Crc8Step(d, y))
  {
    TableIsShift(Xor8(c, x));
    TableIsShift(Xor8(d, y));
    TableIsShift(Xor8(Xor8(c, d), Xor8(x, y)));
    Xor8Shuffle(c, d, x, y);
    Shift8x8IsLinear(Xor8(c, x), Xor8(d, y));
  }

  lemma XorBytesSnoc(a: seq<Byte>, b: seq<Byte>)
    requires |a| == |b| && a != []
    ensures var n := |a| - 1;
            && a == a[..n] + [a[n]] && b == b[..n] + [b[n]]
            && XorBytes(a, b) == XorBytes(a[..n], b[..n]) + [Xor8(a[n], b[n])]
  {
  }

  /** CRC-8 is linear over exclusive-or: seeds and messages may be combined before or after. */
  lemma {:induction false} Crc8IsLinear(s: Byte, t: Byte, a: seq<Byte>, b: seq<Byte>)
    requires |a| == |b|
    ensures Crc8(Xor8(s, t), XorBytes(a, b)) == Xor8(Crc8(s, a), Crc8(t, b))
  {
    if a != [] {
      var n := |a| - 1;
      XorBytesSnoc(a, b);
      Crc8IsLinear(s, t, a[..n], b[..n]);
      Crc8Snoc(s, a[..n], a[n]);
      Crc8Snoc(t, b[..n], b[n]);
      Crc8Snoc(Xor8(s, t), XorBytes(a[..n], b[..n]), Xor8(a[n], b[n]));
      Step8IsLinear(Crc8(s, a[..n]), Crc8(t, b[..n]), a[n], b[n]);
    }
  }
}
