/** Bitwise exclusive and inclusive or of unsigned words, bit by bit from the lowest, with the laws the checksum
    and the codecs use. Shifts are quotients by and products with powers of two. */
module Bits {
  import opened Words
  import opened Modular

  function Xor(a: nat, b: nat): nat
    decreases a + b
  {
    if a == 0 && b == 0 then 0 else (if a % 2 == b % 2 then 0 else 1) + 2 * Xor(a / 2, b / 2)
  }

  function Or(a: nat, b: nat): nat
    decreases a + b
  {
    if a == 0 && b == 0 then 0 else (if a % 2 == 1 || b % 2 == 1 then 1 else 0) + 2 * Or(a / 2, b / 2)
  }

  lemma {:induction false} XorCommutes(a: nat, b: nat)
    ensures Xor(a, b) == Xor(b, a)
    decreases a + b
  {
    if a + b > 0 {
      XorCommutes(a / 2, b / 2);
    }
  }

  lemma {:induction false} XorZero(a: nat)
    ensures Xor(a, 0) == a == Xor(0, a)
  {
    if a > 0 {
      XorZero(a / 2);
    }
  }

  lemma {:induction false} XorCancels(a: nat, b: nat)
    ensures Xor(Xor(a, b), b) == a
    decreases a + b
  {
    if a + b > 0 {
      XorCancels(a / 2, b / 2);
      XorParts(a, b);
      XorParts(Xor(a, b), b);
    }
  }

  lemma XorParts(a: nat, b: nat)
    ensures Xor(a, b) % 2 == (if a % 2 == b % 2 then 0 else 1) && Xor(a, b) / 2 == Xor(a / 2, b / 2)
  {
  }

  /** a >> k, one place at a time. */
  function ShiftRight(a: nat, k: nat): nat
    decreases k
  {
    if k == 0 then a else ShiftRight(a / 2, k - 1)
  }

  lemma {:induction false} ShiftBound(a: nat, k: nat)
    ensures ShiftRight(a, k) <= a
    ensures a > 0 && k > 0 ==> ShiftRight(a, k) < a
    decreases k
  {
    if k > 0 {
      ShiftBound(a / 2, k - 1);
    }
  }

  lemma {:induction false} XorShift(a: nat, b: nat, k: nat)
    ensures ShiftRight(Xor(a, b), k) == Xor(ShiftRight(a, k), ShiftRight(b, k))
    decreases k
  {
    if k > 0 {
      XorParts(a, b);
      XorShift(a / 2, b / 2, k - 1);
    }
  }

  lemma {:induction false} PowPositive(b: nat, k: nat)
    requires b > 0
    ensures Pow(b, k) > 0
  {
    if k > 0 {
      PowPositive(b, k - 1);
      assert b * Pow(b, k - 1) > 0;
    }
  }

  lemma ShiftByOneMore(a: nat, k: nat)
    requires k > 0
    ensures Pow(2, k - 1) > 0 && Pow(2, k) == 2 * Pow(2, k - 1) && a / Pow(2, k) == a / 2 / Pow(2, k - 1)
  {
    PowPositive(2, k - 1);
    var p := Pow(2, k - 1);
    var q, r := a / 2 / p, a / 2 % p;
    assert a == q * (2 * p) + (2 * r + a % 2) by {
      assert a / 2 == q * p + r;
    }
    RemainderIsUnique(a, q, 2 * r + a % 2, 2 * p);
  }

  lemma {:induction false} XorBound(a: nat, b: nat, k: nat)
    requires a < Pow(2, k) && b < Pow(2, k)
    ensures Xor(a, b) < Pow(2, k)
    decreases k
  {
    if k > 0 {
      XorBound(a / 2, b / 2, k - 1);
    } else {
      assert a == 0 && b == 0;
    }
  }

  /** Or of a word with one shifted past its bits is their sum. */
  lemma {:induction false} OrDisjoint(a: nat, b: nat, k: nat)
    requires a < Pow(2, k)
    ensures Or(a, b * Pow(2, k)) == a + b * Pow(2, k)
    decreases k
  {
    if k == 0 {
      OrZero(b);
    } else {
      var p := Pow(2, k - 1);
      assert b * (2 * p) == 2 * (b * p);
      OrDisjoint(a / 2, b, k - 1);
    }
  }

  lemma {:induction false} OrZero(b: nat)
    ensures Or(0, b) == b
  {
    if b > 0 {
      OrZero(b / 2);
    }
  }

  lemma PowersOfTwo()
    ensures Pow(2, 8) == 0x100 && Pow(2, 16) == TWO_16 && Pow(2, 32) == TWO_32 && Pow(2, 64) == TWO_64
  {
    assert Pow(2, 4) == 16;
    PowAdd(2, 4, 4);
    PowAdd(2, 8, 8);
    PowAdd(2, 16, 16);
    PowAdd(2, 32, 32);
  }

  // ---- The operations, bit by bit

  /** Bit i of a number. */
  ghost predicate Bit(a: nat, i: nat) {
    PowPositive(2, i);
    a / Pow(2, i) % 2 == 1
  }

  lemma BitZero(a: nat)
    ensures Bit(a, 0) <==> a % 2 == 1
  {
    assert Pow(2, 0) == 1;
  }

  lemma BitShift(a: nat, i: nat)
    requires i > 0
    ensures Bit(a, i) <==> Bit(a / 2, i - 1)
  {
    ShiftByOneMore(a, i);
  }

  /** A bit of the exclusive or is set exactly if it is set in one of the two. */
  lemma {:induction false} XorBit(a: nat, b: nat, i: nat)
    ensures Bit(Xor(a, b), i) <==> Bit(a, i) != Bit(b, i)
    decreases i
  {
    hide Bit;
    XorParts(a, b);
    if i == 0 {
      BitZero(a);
      BitZero(b);
      BitZero(Xor(a, b));
    } else {
      BitShift(a, i);
      BitShift(b, i);
      BitShift(Xor(a, b), i);
      XorBit(a / 2, b / 2, i - 1);
    }
  }

  lemma OrParts(a: nat, b: nat)
    ensures (Or(a, b) % 2 == 1 <==> a % 2 == 1 || b % 2 == 1) && Or(a, b) / 2 == Or(a / 2, b / 2)
  {
  }

  /** A bit of the inclusive or is set exactly if it is set in either. */
  lemma {:induction false} OrBit(a: nat, b: nat, i: nat)
    ensures Bit(Or(a, b), i) <==> Bit(a, i) || Bit(b, i)
    decreases i
  {
    hide Bit;
    OrParts(a, b);
    if i == 0 {
      BitZero(a);
      BitZero(b);
      BitZero(Or(a, b));
    } else {
      BitShift(a, i);
      BitShift(b, i);
      BitShift(Or(a, b), i);
      OrBit(a / 2, b / 2, i - 1);
    }
  }

  /** Shifting right moves every bit down. */
  lemma {:induction false} ShiftRightBit(a: nat, k: nat, i: nat)
    ensures Bit(ShiftRight(a, k), i) <==> Bit(a, i + k)
    decreases k
  {
    hide Bit;
    if k > 0 {
      ShiftRightBit(a / 2, k - 1, i);
      BitShift(a, i + k);
    }
  }

  /** A number is its bits. */
  lemma {:induction false} BitsDetermine(a: nat, b: nat)
    requires forall i: nat :: Bit(a, i) <==> Bit(b, i)
    ensures a == b
    decreases a + b
  {
    hide Bit;
    BitZero(a);
    BitZero(b);
    assert a % 2 == b % 2;
    if a + b > 0 {
      forall i: nat ensures Bit(a / 2, i) <==> Bit(b / 2, i) {
        BitShift(a, i + 1);
        BitShift(b, i + 1);
      }
      BitsDetermine(a / 2, b / 2);
    }
  }
}
