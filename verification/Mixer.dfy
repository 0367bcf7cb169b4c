/** The two integer mixers of the checksum and their inverses. */
module Mixer {
  import opened Words
  import opened Modular
  import opened Bits

  /** (x >> k) ^ x */
  function ShiftXor(x: nat, k: nat): nat {
    Xor(ShiftRight(x, k), x)
  }

  /** Undoes ShiftXor from the top bits down. */
  function UnshiftXor(y: nat, k: nat): nat
    requires k > 0
    decreases y
  {
    if y == 0 then 0 else
      ShiftBound(y, k);
      Xor(UnshiftXor(ShiftRight(y, k), k), y)
  }

  lemma {:induction false} UnshiftUndoesShift(x: nat, k: nat)
    requires k > 0
    ensures UnshiftXor(ShiftXor(x, k), k) == x
  {
    var a := ShiftRight(x, k);
    XorCancels(a, x);
    XorZero(x);
    ShiftBound(x, k);
    if x > 0 {
      XorShift(a, x, k);
      UnshiftUndoesShift(a, k);
      XorSelfInverse(a, x);
    }
  }

  lemma {:induction false} ShiftUndoesUnshift(y: nat, k: nat)
    requires k > 0
    ensures ShiftXor(UnshiftXor(y, k), k) == y
  {
    if y > 0 {
      ShiftBound(y, k);
      ShiftUndoesUnshift(ShiftRight(y, k), k);
      ShiftUndone(UnshiftXor(ShiftRight(y, k), k), y, k);
    } else {
      ShiftBound(0, k);
    }
  }

  lemma ShiftUndone(u: nat, y: nat, k: nat)
    requires ShiftXor(u, k) == ShiftRight(y, k)
    ensures ShiftXor(Xor(u, y), k) == y
  {
    XorShift(u, y, k);
    XorSelfInverse(ShiftRight(u, k), u);
    XorSelfInverse(u, y);
  }

  lemma XorSelfInverse(a: nat, b: nat)
    ensures Xor(a, Xor(a, b)) == b
  {
    XorCommutes(a, b);
    XorCommutes(a, Xor(a, b));
    XorCancels(b, a);
  }

  lemma ShiftXorBound(x: nat, k: nat, n: nat)
    requires x < Pow(2, n)
    ensures ShiftXor(x, k) < Pow(2, n)
  {
    ShiftBound(x, k);
    XorBound(ShiftRight(x, k), x, n);
  }

  lemma {:induction false} UnshiftXorBound(y: nat, k: nat, n: nat)
    requires k > 0 && y < Pow(2, n)
    ensures UnshiftXor(y, k) < Pow(2, n)
    decreases y
  {
    PowPositive(2, n);
    if y > 0 {
      ShiftBound(y, k);
      UnshiftXorBound(ShiftRight(y, k), k, n);
      XorBound(UnshiftXor(ShiftRight(y, k), k), y, n);
    }
  }

  // ---- Words of 32 and 64 bits

  function ShiftXor32(x: u32, k: nat): u32 {
    PowersOfTwo();
    ShiftXorBound(x, k, 32);
    ShiftXor(x, k)
  }

  function ShiftXor64(x: u64, k: nat): u64 {
    PowersOfTwo();
    ShiftXorBound(x, k, 64);
    ShiftXor(x, k)
  }

  function UnshiftXor32(y: u32, k: nat): u32
    requires k > 0
  {
    PowersOfTwo();
    UnshiftXorBound(y, k, 32);
    UnshiftXor(y, k)
  }

  function UnshiftXor64(y: u64, k: nat): u64
    requires k > 0
  {
    PowersOfTwo();
    UnshiftXorBound(y, k, 64);
    UnshiftXor(y, k)
  }

  function Mul32(x: u32, c: u32): u32 {
    x * c % TWO_32
  }

  function Mul64(x: u64, c: u64): u64 {
    x * c % TWO_64
  }

  lemma ProductsCancel(x: nat, c: nat, inverse: nat, m: nat)
    requires x < m && c * inverse % m == 1
    ensures (x * c % m) * inverse % m == x
  {
    MoveFactor(x, c, inverse, m);
    assert inverse * c == c * inverse;
    assert x * 1 == x;
    RemainderIsUnique(x, 0, x, m);
  }

  function Hash32(x: u32): u32 {
    var x1 := Mul32(ShiftXor32(x, 16), 0x21f0aaad);
    var x2 := Mul32(ShiftXor32(x1, 15), 0x735a2d97);
    ShiftXor32(x2, 15)
  }

  function Hash64(x: u64): u64 {
    var x1 := Mul64(ShiftXor64(x, 32), 0xe9846af9b1a615d);
    var x2 := Mul64(ShiftXor64(x1, 32), 0xe9846af9b1a615d);
    ShiftXor64(x2, 28)
  }

  /** The inverse of Hash32; the multipliers are the inverses of the forward ones modulo 2^32. */
  function Unhash32(y: u32): u32 {
    var x2 := UnshiftXor32(y, 15);
    var x1 := UnshiftXor32(Mul32(x2, 0x97132227), 15);
    UnshiftXor32(Mul32(x1, 0x333c4925), 16)
  }

  /** The inverse of Hash64; the multiplier is the inverse of the forward one modulo 2^64. */
  function Unhash64(y: u64): u64 {
    var x2 := UnshiftXor64(y, 28);
    var x1 := UnshiftXor64(Mul64(x2, 0x153ed04bd89cfaf5), 32);
    UnshiftXor64(Mul64(x1, 0x153ed04bd89cfaf5), 32)
  }

  lemma Inverses()
    ensures 0x21f0aaad * 0x333c4925 % TWO_32 == 1
    ensures 0x735a2d97 * 0x97132227 % TWO_32 == 1
    ensures 0xe9846af9b1a615d * 0x153ed04bd89cfaf5 % TWO_64 == 1
  {
  }

  lemma Mul64Cancels(x: u64)
    ensures Mul64(Mul64(x, 0xe9846af9b1a615d), 0x153ed04bd89cfaf5) == x
    ensures Mul64(Mul64(x, 0x153ed04bd89cfaf5), 0xe9846af9b1a615d) == x
  {
    Inverses();
    ProductsCancel(x, 0xe9846af9b1a615d, 0x153ed04bd89cfaf5, TWO_64);
    ProductsCancel(x, 0x153ed04bd89cfaf5, 0xe9846af9b1a615d, TWO_64);
  }

  lemma Mul32Cancels(x: u32)
    ensures Mul32(Mul32(x, 0x21f0aaad), 0x333c4925) == x && Mul32(Mul32(x, 0x333c4925), 0x21f0aaad) == x
    ensures Mul32(Mul32(x, 0x735a2d97), 0x97132227) == x && Mul32(Mul32(x, 0x97132227), 0x735a2d97) == x
  {
    Inverses();
    ProductsCancel(x, 0x21f0aaad, 0x333c4925, TWO_32);
    ProductsCancel(x, 0x333c4925, 0x21f0aaad, TWO_32);
    ProductsCancel(x, 0x735a2d97, 0x97132227, TWO_32);
    ProductsCancel(x, 0x97132227, 0x735a2d97, TWO_32);
  }

  /** Hash32 is a bijection on 32-bit words. */
  lemma Hash32IsBijective(x: u32)
    ensures Unhash32(Hash32(x)) == x && Hash32(Unhash32(x)) == x
  {
    var a := ShiftXor32(x, 16);
    var b := ShiftXor32(Mul32(a, 0x21f0aaad), 15);
    UnshiftUndoesShift(Mul32(b, 0x735a2d97), 15);
    Mul32Cancels(b);
    UnshiftUndoesShift(Mul32(a, 0x21f0aaad), 15);
    Mul32Cancels(a);
    UnshiftUndoesShift(x, 16);
    var c := UnshiftXor32(x, 15);
    var d := UnshiftXor32(Mul32(c, 0x97132227), 15);
    ShiftUndoesUnshift(Mul32(d, 0x333c4925), 16);
    Mul32Cancels(d);
    ShiftUndoesUnshift(Mul32(c, 0x97132227), 15);
    Mul32Cancels(c);
    ShiftUndoesUnshift(x, 15);
  }

  /** Hash64 is a bijection on 64-bit words. */
  lemma Hash64IsBijective(x: u64)
    ensures Unhash64(Hash64(x)) == x && Hash64(Unhash64(x)) == x
  {
    var a := ShiftXor64(x, 32);
    var b := ShiftXor64(Mul64(a, 0xe9846af9b1a615d), 32);
    UnshiftUndoesShift(Mul64(b, 0xe9846af9b1a615d), 28);
    Mul64Cancels(b);
    UnshiftUndoesShift(Mul64(a, 0xe9846af9b1a615d), 32);
    Mul64Cancels(a);
    UnshiftUndoesShift(x, 32);
    var c := UnshiftXor64(x, 28);
    var d := UnshiftXor64(Mul64(c, 0x153ed04bd89cfaf5), 32);
    ShiftUndoesUnshift(Mul64(d, 0x153ed04bd89cfaf5), 32);
    Mul64Cancels(d);
    ShiftUndoesUnshift(Mul64(c, 0x153ed04bd89cfaf5), 32);
    Mul64Cancels(c);
    ShiftUndoesUnshift(x, 28);
  }

  // ---- The hashes, bit by bit

  /** y is x exclusive-or x shifted right by k. */
  ghost predicate FoldsOver(x: nat, y: nat, k: nat) {
    forall i: nat :: Bit(y, i) <==> Bit(x, i) != Bit(x, i + k)
  }

  lemma ShiftXorFolds(x: nat, k: nat)
    ensures FoldsOver(x, ShiftXor(x, k), k)
  {
    hide Bit;
    forall i: nat ensures Bit(ShiftXor(x, k), i) <==> Bit(x, i) != Bit(x, i + k) {
      XorBit(ShiftRight(x, k), x, i);
      ShiftRightBit(x, k, i);
    }
  }

  lemma FoldsAreUnique(x: nat, y: nat, k: nat)
    requires FoldsOver(x, y, k)
    ensures y == ShiftXor(x, k)
  {
    hide Bit, ShiftXor;
    ShiftXorFolds(x, k);
    forall i: nat ensures Bit(y, i) <==> Bit(ShiftXor(x, k), i) {
      assert Bit(y, i) <==> Bit(x, i) != Bit(x, i + k);
    }
    BitsDetermine(y, ShiftXor(x, k));
  }

  /** Hash64 folds the word over by 32 bits and multiplies, twice, and folds it over by 28 bits: it is the only function
      that does. */
  lemma Hash64InBits(x: u64, h: nat)
    ensures h == Hash64(x) <==>
      exists a: nat, b: nat ::
        && FoldsOver(x, a, 32)
        && FoldsOver(a * 0xe9846af9b1a615d % TWO_64, b, 32)
        && FoldsOver(b * 0xe9846af9b1a615d % TWO_64, h, 28)
  {
    hide ShiftXor, FoldsOver;
    var a := ShiftXor(x, 32);
    var b := ShiftXor(a * 0xe9846af9b1a615d % TWO_64, 32);
    ShiftXorFolds(x, 32);
    ShiftXorFolds(a * 0xe9846af9b1a615d % TWO_64, 32);
    ShiftXorFolds(b * 0xe9846af9b1a615d % TWO_64, 28);
    forall c: nat, d: nat |
        && FoldsOver(x, c, 32)
        && FoldsOver(c * 0xe9846af9b1a615d % TWO_64, d, 32)
        && FoldsOver(d * 0xe9846af9b1a615d % TWO_64, h, 28)
      ensures h == Hash64(x)
    {
      FoldsAreUnique(x, c, 32);
      FoldsAreUnique(c * 0xe9846af9b1a615d % TWO_64, d, 32);
      FoldsAreUnique(d * 0xe9846af9b1a615d % TWO_64, h, 28);
    }
  }

  /** Hash32 likewise, by 16, 15 and 15 bits, with two multipliers. */
  lemma Hash32InBits(x: u32, h: nat)
    ensures h == Hash32(x) <==>
      exists a: nat, b: nat ::
        && FoldsOver(x, a, 16)
        && FoldsOver(a * 0x21f0aaad % TWO_32, b, 15)
        && FoldsOver(b * 0x735a2d97 % TWO_32, h, 15)
  {
    hide ShiftXor, FoldsOver;
    var a := ShiftXor(x, 16);
    var b := ShiftXor(a * 0x21f0aaad % TWO_32, 15);
    ShiftXorFolds(x, 16);
    ShiftXorFolds(a * 0x21f0aaad % TWO_32, 15);
    ShiftXorFolds(b * 0x735a2d97 % TWO_32, 15);
    forall c: nat, d: nat |
        && FoldsOver(x, c, 16)
        && FoldsOver(c * 0x21f0aaad % TWO_32, d, 15)
        && FoldsOver(d * 0x735a2d97 % TWO_32, h, 15)
      ensures h == Hash32(x)
    {
      FoldsAreUnique(x, c, 16);
      FoldsAreUnique(c * 0x21f0aaad % TWO_32, d, 15);
      FoldsAreUnique(d * 0x735a2d97 % TWO_32, h, 15);
    }
  }

  // ---- Mixing two values

  /** MixValue64 of values with the given sum: the constant is added with wrap-around and the result is hashed. */
  function MixSum(sum: nat): u64 {
    Hash64((0x3c0aad46f555e0b9 + sum) % TWO_64)
  }

  /** MixValue64 of two values. */
  function Mix(a: u64, b: u64): u64 {
    MixSum(a + b)
  }

  lemma Hash64IsInjective(x: u64, y: u64)
    ensures Hash64(x) == Hash64(y) <==> x == y
  {
    Hash64IsBijective(x);
    Hash64IsBijective(y);
  }

  lemma SumsSeparate(a: nat, b: nat, a': nat, b': nat, m: nat)
    requires a < m && b < m && a' < m && b' < m
    ensures a == a' && b != b' ==> (a + b) % m != (a' + b') % m
    ensures b == b' && a != a' ==> (a + b) % m != (a' + b') % m
  {
    SumIsInjective(a, b, b', m);
    SumIsInjective(b, a, a', m);
  }

  /** Mixing identifies exactly the values with the same sum modulo 2^64. */
  lemma MixIdentifiesSums(s: nat, s': nat)
    ensures MixSum(s) == MixSum(s') <==> s % TWO_64 == s' % TWO_64
  {
    Hash64IsInjective((0x3c0aad46f555e0b9 + s) % TWO_64, (0x3c0aad46f555e0b9 + s') % TWO_64);
    OffsetsAgree(0x3c0aad46f555e0b9, s, s', TWO_64);
  }

  /** So with one value fixed it is injective in the other. */
  lemma MixIsInjective(a: u64, b: u64, a': u64, b': u64)
    requires (a == a' && b != b') || (a != a' && b == b')
    ensures Mix(a, b) != Mix(a', b')
  {
    hide MixSum;
    MixIdentifiesSums(a + b, a' + b');
    SumsSeparate(a, b, a', b', TWO_64);
  }

  /** Mixing is the hash of the wrapped sum of the two values and the constant. */
  lemma MixIsHashOfSum(a: u64, b: u64)
    ensures Unhash64(Mix(a, b)) == (0x3c0aad46f555e0b9 + a + b) % TWO_64
  {
    hide Hash64, Unhash64;
    Hash64IsBijective((0x3c0aad46f555e0b9 + (a + b)) % TWO_64);
  }
}
