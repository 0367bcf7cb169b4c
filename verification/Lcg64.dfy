/** The 64-bit generator, an affine map modulo 2^64 whose comment claims a period of 2^64. */
module Lcg64 {
  import opened Words
  import opened Modular

  const MULTIPLIER: nat := 2862933555777941757
  const INCREMENT: nat := 3037000493

  /** The generator's step: 64-bit multiplication and addition, wrapping. */
  function Next(x: u64): u64 {
    (x * MULTIPLIER % TWO_64 + INCREMENT) % TWO_64
  }

  function Iterate(x: u64, k: nat): u64 {
    if k == 0 then x else Next(Iterate(x, k - 1))
  }

  // ---- Partial sums of the powers of a multiplier a

  ghost function GeometricSum(a: nat, k: nat): nat {
    if k == 0 then 0 else 1 + a * GeometricSum(a, k - 1)
  }

  lemma {:induction false} GeometricSumIsQuotient(a: nat, k: nat)
    requires a > 0
    ensures GeometricSum(a, k) * (a - 1) == Pow(a, k) - 1
  {
    if k > 0 {
      GeometricSumIsQuotient(a, k - 1);
      QuotientStep(a, GeometricSum(a, k - 1), Pow(a, k - 1));
    }
  }

  lemma QuotientStep(a: int, s: int, p: int)
    requires s * (a - 1) == p - 1
    ensures (1 + a * s) * (a - 1) == a * p - 1
  {
    var t := s * (a - 1);
    assert (1 + a * s) * (a - 1) == (a - 1) + a * s * (a - 1);
    assert a * s * (a - 1) == a * t;
    assert a * (p - 1) == a * p - a;
  }

  lemma Distribute(a: int, s: int, p: int, t: int)
    ensures a * (s + p * t) == a * s + a * p * t
  {
    assert a * (p * t) == a * p * t;
  }

  lemma {:induction false} GeometricSumAdd(a: nat, i: nat, j: nat)
    ensures GeometricSum(a, i + j) == GeometricSum(a, i) + Pow(a, i) * GeometricSum(a, j)
  {
    if i > 0 {
      GeometricSumAdd(a, i - 1, j);
      Distribute(a, GeometricSum(a, i - 1), Pow(a, i - 1), GeometricSum(a, j));
    }
  }

  /** k steps are one affine map whose increment is a geometric sum. */
  lemma {:induction false} IterateIsAffine(x: u64, k: nat)
    ensures Iterate(x, k) == (Pow(2862933555777941757, k) * x
                              + 3037000493 * GeometricSum(2862933555777941757, k)) % 0x1_0000_0000_0000_0000
  {
    if k == 0 {
      RemainderIsUnique(x, 0, x, TWO_64);
    } else {
      IterateIsAffine(x, k - 1);
      AffineStep(Pow(MULTIPLIER, k - 1), GeometricSum(MULTIPLIER, k - 1),
                 Pow(MULTIPLIER, k), GeometricSum(MULTIPLIER, k), x, MULTIPLIER, INCREMENT, TWO_64);
    }
  }

  lemma AffineStep(p: nat, s: nat, p': nat, s': nat, x: nat, a: nat, c: nat, m: nat)
    requires m > 0 && p' == a * p && s' == 1 + a * s
    ensures (((p * x + c * s) % m) * a % m + c) % m == (p' * x + c * s') % m
  {
    var y := p * x + c * s;
    RemainderOfProduct(y, a, m);
    RemainderOfSum(y * a, c, m);
    OneStepMore(p, s, x, a, c);
  }

  lemma OneStepMore(p: int, s: int, x: int, a: int, c: int)
    ensures (p * x + c * s) * a + c == a * p * x + c * (1 + a * s)
  {
    assert (p * x + c * s) * a == a * (p * x) + a * (c * s);
    assert a * (p * x) == a * p * x;
    assert a * (c * s) == c * (a * s);
  }

  // ---- Divisibility by powers of two

  /** 2^j divides n. */
  ghost predicate TwoPowerDivides(j: nat, n: int) {
    j == 0 || (n % 2 == 0 && TwoPowerDivides(j - 1, n / 2))
  }

  lemma {:induction false} TwoPowerDividesMeaning(j: nat, n: int)
    ensures Pow(2, j) > 0
    ensures TwoPowerDivides(j, n) <==> n % Pow(2, j) == 0
  {
    if j > 0 {
      TwoPowerDividesMeaning(j - 1, n / 2);
      var p := Pow(2, j - 1);
      if n % 2 == 0 {
        var q, r := n / 2 / p, n / 2 % p;
        assert n == q * (2 * p) + 2 * r;
        RemainderIsUnique(n, q, 2 * r, 2 * p);
      } else if n % (2 * p) == 0 {
        RemainderIsUnique(n, p * (n / (2 * p)), 0, 2);
      }
    } else {
      assert n % 1 == 0;
    }
  }

  /** An odd factor does not change divisibility by a power of two. */
  lemma {:induction false} OddFactor(j: nat, n: int, odd: int)
    requires odd % 2 == 1
    ensures TwoPowerDivides(j, n * odd) <==> TwoPowerDivides(j, n)
  {
    if j > 0 {
      TimesOdd(n, odd);
      if n % 2 == 0 {
        OddFactor(j - 1, n / 2, odd);
      }
    }
  }

  lemma TimesOdd(n: int, odd: int)
    requires odd % 2 == 1
    ensures n % 2 == 0 ==> n * odd % 2 == 0 && n * odd / 2 == n / 2 * odd
    ensures n % 2 == 1 ==> n * odd % 2 == 1
  {
    var u, v := n / 2, odd / 2;
    if n % 2 == 0 {
      assert n * odd == 2 * (u * odd);
    } else {
      assert n * odd == (2 * u + 1) * (2 * v + 1) == 2 * (2 * u * v + u + v) + 1;
    }
  }

  lemma ProductIsOneModFour(a: nat, b: nat)
    requires a % 4 == 1 && b % 4 == 1
    ensures a * b % 4 == 1
  {
    var u, v := a / 4, b / 4;
    assert a * b == (4 * u + 1) * (4 * v + 1) == 4 * (4 * u * v + u + v) + 1;
  }

  lemma {:induction false} PowStaysOneModFour(a: nat, k: nat)
    requires a % 4 == 1
    ensures Pow(a, k) % 4 == 1
  {
    if k > 0 {
      PowStaysOneModFour(a, k - 1);
      ProductIsOneModFour(a, Pow(a, k - 1));
    }
  }

  lemma OddHalf(s: nat, p: nat) returns (odd: nat)
    requires p % 4 == 1
    ensures odd % 2 == 1 && s + p * s == 2 * (s * odd)
  {
    odd := 2 * (p / 4) + 1;
    assert p * s == (2 * odd - 1) * s == 2 * odd * s - s;
    assert 2 * odd * s == 2 * (s * odd);
  }

  /** Doubling the number of terms doubles the sum, up to an odd factor. */
  lemma GeometricSumDoubled(a: nat, h: nat) returns (odd: nat)
    requires a % 4 == 1
    ensures odd % 2 == 1 && GeometricSum(a, h + h) == 2 * (GeometricSum(a, h) * odd)
  {
    PowStaysOneModFour(a, h);
    GeometricSumAdd(a, h, h);
    odd := OddHalf(GeometricSum(a, h), Pow(a, h));
  }

  lemma GeometricSumOfOddCount(a: nat, h: nat)
    requires a % 4 == 1
    ensures GeometricSum(a, h + h + 1) % 2 == 1
  {
    var odd := GeometricSumDoubled(a, h);
    var t := GeometricSum(a, h) * odd;
    assert GeometricSum(a, h + h + 1) == 1 + a * (2 * t) == 1 + 2 * (a * t);
  }

  /** The sum of the first k powers is divisible by exactly the powers of two that divide k. */
  lemma {:induction false} GeometricSumDivisibility(a: nat, k: nat, j: nat)
    requires a % 4 == 1
    ensures TwoPowerDivides(j, GeometricSum(a, k)) <==> TwoPowerDivides(j, k)
    decreases j
  {
    var h := k / 2;
    if j > 0 && k % 2 == 0 {
      assert k == h + h;
      var odd := GeometricSumDoubled(a, h);
      OddFactor(j - 1, GeometricSum(a, h), odd);
      GeometricSumDivisibility(a, h, j - 1);
    } else if j > 0 {
      assert k == h + h + 1;
      GeometricSumOfOddCount(a, h);
    }
  }

  // ---- The period

  lemma TwoPower64()
    ensures Pow(2, 64) == TWO_64
  {
    assert Pow(2, 8) == 256;
    PowAdd(2, 8, 8);
    PowAdd(2, 16, 16);
    PowAdd(2, 32, 32);
  }

  /** An affine map x -> p * x + c * s fixes x exactly when s times a number determined by x vanishes. */
  lemma AffineFixedPoint(a: nat, c: nat, p: nat, s: nat, x: nat, m: nat)
    requires s * (a - 1) == p - 1 && x < m
    ensures (p * x + c * s) % m == x <==> s * ((a - 1) * x + c) % m == 0
  {
    assert p * x + c * s - x == s * ((a - 1) * x + c) by {
      assert (1 + s * (a - 1)) * x == x + s * (a - 1) * x;
      assert s * (a - 1) * x == s * ((a - 1) * x);
      assert s * ((a - 1) * x + c) == s * ((a - 1) * x) + s * c;
    }
    SameRemainder(p * x + c * s, x, m);
    RemainderIsUnique(x, 0, x, m);
  }

  /** That number is odd. */
  lemma DriftIsOdd(x: u64)
    ensures ((MULTIPLIER - 1) * x + INCREMENT) % 2 == 1
  {
    var half := (MULTIPLIER - 1) / 2 * x;
    assert (MULTIPLIER - 1) * x + INCREMENT == 2 * (half + INCREMENT / 2) + 1;
  }

  /** The claimed period, from every seed: the generator is back exactly after the multiples of 2^64 steps. */
  lemma PeriodIsExact(x: u64, k: nat)
    ensures Iterate(x, k) == x <==> k % TWO_64 == 0
  {
    var p, s := Pow(MULTIPLIER, k), GeometricSum(MULTIPLIER, k);
    IterateIsAffine(x, k);
    GeometricSumIsQuotient(MULTIPLIER, k);
    AffineFixedPoint(MULTIPLIER, INCREMENT, p, s, x, TWO_64);
    DivisibleIffCountIs(s, (MULTIPLIER - 1) * x + INCREMENT, k, x);
  }

  lemma DivisibleIffCountIs(s: nat, drift: int, k: nat, x: u64)
    requires s == GeometricSum(MULTIPLIER, k) && drift == (MULTIPLIER - 1) * x + INCREMENT
    ensures s * drift % TWO_64 == 0 <==> k % TWO_64 == 0
  {
    TwoPower64();
    TwoPowerDividesMeaning(64, s * drift);
    TwoPowerDividesMeaning(64, k);
    DriftIsOdd(x);
    OddFactor(64, s, drift);
    GeometricSumDivisibility(MULTIPLIER, k, 64);
  }

  ghost function Orbit(x: u64, n: nat): (s: seq<int>)
    ensures |s| == n && forall i :: 0 <= i < n ==> s[i] == Iterate(x, i)
  {
    seq(n, i requires 0 <= i => Iterate(x, i))
  }

  lemma {:induction false} IterateAdd(x: u64, i: nat, j: nat)
    ensures Iterate(x, i + j) == Iterate(Iterate(x, i), j)
  {
    if j > 0 {
      IterateAdd(x, i, j - 1);
    }
  }

  lemma NoReturnBeforePeriod(x: u64, i: nat, j: nat)
    requires i < j < TWO_64
    ensures Iterate(x, i) != Iterate(x, j)
  {
    IterateAdd(x, i, j - i);
    PeriodIsExact(Iterate(x, i), j - i);
    RemainderIsUnique(j - i, 0, j - i, TWO_64);
  }

  /** One cycle covers all 64-bit seeds. */
  lemma CycleIsFull(x: u64, y: u64) returns (k: nat)
    ensures k < TWO_64 && Iterate(x, k) == y
  {
    var orbit := Orbit(x, TWO_64);
    forall i, j | 0 <= i < j < |orbit| ensures orbit[i] != orbit[j] {
      NoReturnBeforePeriod(x, i, j);
    }
    Pigeonhole(orbit, 0, y);
    k :| 0 <= k < |orbit| && orbit[k] == y;
  }

  /** The generator object. */
  class Generator {
    var seed: u64

    constructor (s: u64)
      ensures seed == s
    {
      seed := s;
    }

    method Step() returns (r: u64)
      modifies this
      ensures seed == r == Next(old(seed))
    {
      seed := Next(seed);
      r := seed;
    }
  }
}
