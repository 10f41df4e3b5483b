/** Unsigned bytes as numbers, and the bitwise operations on them that the cache and the file
    layer use. */
module Octets {
  type Octet = x: nat | x < 256

  /** Bitwise or. */
  function Or(x: nat, y: nat): nat {
    if x == 0 && y == 0 then 0 else 2 * Or(x / 2, y / 2) + (if x % 2 == 1 || y % 2 == 1 then 1 else 0)
  }

  /** Bitwise exclusive or. */
  function Xor(x: nat, y: nat): nat {
    if x == 0 && y == 0 then 0 else 2 * Xor(x / 2, y / 2) + (if x % 2 != y % 2 then 1 else 0)
  }

  /** Bitwise and. */
  function And(x: nat, y: nat): nat {
    if x == 0 || y == 0 then 0 else 2 * And(x / 2, y / 2) + (if x % 2 == 1 && y % 2 == 1 then 1 else 0)
  }

  /** One bit, shifted up k places. */
  function Mask(k: nat): (m: nat)
    ensures m >= 1
  {
    if k == 0 then 1 else 2 * Mask(k - 1)
  }

  predicate Bit(x: nat, k: nat) {
    if k == 0 then x % 2 == 1 else Bit(x / 2, k - 1)
  }

  lemma {:induction false} BitOfOr(x: nat, y: nat, k: nat)
    ensures Bit(Or(x, y), k) <==> Bit(x, k) || Bit(y, k)
    decreases k
  {
    var h, e := Or(x / 2, y / 2), if x % 2 == 1 || y % 2 == 1 then 1 else 0;
    if x == 0 && y == 0 {
      assert Or(0, 0) == 0;
    }
    assert Or(x, y) == 2 * h + e;
    if k > 0 {
      BitOfOr(x / 2, y / 2, k - 1);
    }
  }

  lemma {:induction false} BitOfXor(x: nat, y: nat, k: nat)
    ensures Bit(Xor(x, y), k) <==> Bit(x, k) != Bit(y, k)
    decreases k
  {
    var h, e := Xor(x / 2, y / 2), if x % 2 != y % 2 then 1 else 0;
    if x == 0 && y == 0 {
      assert Xor(0, 0) == 0;
    }
    assert Xor(x, y) == 2 * h + e;
    if k > 0 {
      BitOfXor(x / 2, y / 2, k - 1);
    }
  }

  lemma {:induction false} BitOfAnd(x: nat, y: nat, k: nat)
    ensures Bit(And(x, y), k) <==> Bit(x, k) && Bit(y, k)
    decreases k
  {
    if x == 0 || y == 0 {
      BitOfZero(k);
    } else {
      var h, e := And(x / 2, y / 2), if x % 2 == 1 && y % 2 == 1 then 1 else 0;
      assert And(x, y) == 2 * h + e;
      if k > 0 {
        BitOfAnd(x / 2, y / 2, k - 1);
      }
    }
  }

  /** Programming can only clear bits, so it cannot make a number larger. */
  lemma {:induction false} AndIsLess(x: nat, y: nat)
    ensures And(x, y) <= x && And(x, y) <= y
  {
    if x != 0 && y != 0 {
      AndIsLess(x / 2, y / 2);
    }
  }

  /** Numbers with the same bits are the same. */
  lemma {:induction false} SameBits(x: nat, y: nat, n: nat)
    requires x < Mask(n) && y < Mask(n) && forall k: nat | k < n :: Bit(x, k) == Bit(y, k)
    ensures x == y
    decreases n
  {
    if n > 0 {
      forall k: nat | k < n - 1
        ensures Bit(x / 2, k) == Bit(y / 2, k)
      {
        assert Bit(x, k + 1) == Bit(y, k + 1);
      }
      SameBits(x / 2, y / 2, n - 1);
      assert Bit(x, 0) == Bit(y, 0);
    }
  }

  /** The complement of a number of n bits. */
  function Not(x: nat, n: nat): (r: nat)
    requires x < Mask(n)
    ensures r < Mask(n)
  {
    Mask(n) - 1 - x
  }

  lemma {:induction false} BitOfNot(x: nat, n: nat, k: nat)
    requires x < Mask(n) && k < n
    ensures Bit(Not(x, n), k) <==> !Bit(x, k)
    decreases k
  {
    if k > 0 {
      assert Not(x, n) / 2 == Not(x / 2, n - 1);
      BitOfNot(x / 2, n - 1, k - 1);
    }
  }

  lemma {:induction false} BitOfMask(k: nat, j: nat)
    ensures Bit(Mask(k), j) <==> j == k
    decreases j
  {
    if j > 0 {
      if k == 0 {
        BitOfZero(j - 1);
      } else {
        BitOfMask(k - 1, j - 1);
      }
    }
  }

  lemma {:induction false} BitOfZero(j: nat)
    ensures !Bit(0, j)
  {
    if j > 0 {
      BitOfZero(j - 1);
    }
  }

  /** Neither operation leaves n bits. */
  lemma {:induction false} StaysBelow(x: nat, y: nat, n: nat)
    requires x < Mask(n) && y < Mask(n)
    ensures Or(x, y) < Mask(n) && Xor(x, y) < Mask(n)
    decreases n
  {
    if n > 0 {
      StaysBelow(x / 2, y / 2, n - 1);
    }
  }

  lemma {:induction false} MaskGrows(k: nat, n: nat)
    requires k < n
    ensures Mask(k) < Mask(n)
    decreases n
  {
    if k < n - 1 {
      MaskGrows(k, n - 1);
    }
  }

  lemma EightBits()
    ensures Mask(8) == 256
  {
    assert Mask(4) == 16;
  }
}
