/** Remainders, powers and the pigeonhole principle: the arithmetic the two generators rest on. */
module Modular {

  lemma RemainderIsUnique(x: int, q: int, r: int, m: nat)
    requires m > 0 && 0 <= r < m && x == q * m + r
    ensures x % m == r && x / m == q
  {
    var d := x / m - q;
    assert d * m == r - x % m by {
      assert x == (x / m) * m + x % m;
      assert d * m == (x / m) * m - q * m;
    }
    assert d >= 1 ==> d * m >= m;
    assert d <= -1 ==> d * m <= -1 * m;
  }

  lemma AddMultiple(x: int, k: int, m: nat)
    requires m > 0
    ensures (x + k * m) % m == x % m
  {
    assert x + k * m == (x / m + k) * m + x % m;
    RemainderIsUnique(x + k * m, x / m + k, x % m, m);
  }

  lemma RemainderOfProduct(a: int, b: int, m: nat)
    requires m > 0
    ensures (a % m) * b % m == a * b % m
  {
    var q := a / m;
    assert a * b == (a % m) * b + (q * b) * m by {
      assert a == q * m + a % m;
      assert (q * m + a % m) * b == q * m * b + (a % m) * b;
    }
    AddMultiple((a % m) * b, q * b, m);
  }

  lemma MoveFactor(v: int, w: int, a: int, m: nat)
    requires m > 0
    ensures (v * w % m) * a % m == v * (a * w % m) % m
  {
    RemainderOfProduct(v * w, a, m);
    RemainderOfProduct(a * w, v, m);
    assert v * w * a == a * w * v;
    assert v * (a * w % m) == (a * w % m) * v;
  }

  lemma DivideTwice(v: nat, a: nat, b: nat)
    requires a > 0 && b > 0
    ensures a * b > 0 && v / a / b == v / (a * b)
  {
    var q, r := v / a / b, v / a % b;
    DigitBound(v % a, r, a, b);
    assert v == a * (b * q + r) + v % a;
    assert a * (b * q + r) == q * (a * b) + a * r;
    RemainderIsUnique(v, q, v % a + a * r, a * b);
  }

  lemma DigitBound(u: nat, x: nat, p: nat, q: nat)
    requires u < p && x < q
    ensures u + p * x < p * q
  {
    assert p * (q - 1 - x) >= 0;
    assert p * (q - 1 - x) == p * q - p - p * x;
  }

  lemma ProductBound(q: int, d: nat)
    ensures q >= 0 && d >= 1 ==> q * d >= q && d * q >= q
    ensures q >= 0 && d >= 2 ==> q * d >= 2 * q
    ensures q < 0 && d >= 1 ==> q * d < 0
  {
  }

  lemma OffsetsAgree(c: nat, s: nat, s': nat, m: nat)
    requires m > 0
    ensures (c + s) % m == (c + s') % m <==> s % m == s' % m
  {
    SameRemainder(c + s, c + s', m);
    SameRemainder(s, s', m);
  }

  lemma SumIsInjective(a: nat, b: nat, b': nat, m: nat)
    requires b < m && b' < m
    ensures (a + b) % m == (a + b') % m <==> b == b'
  {
    OffsetsAgree(a, b, b', m);
    RemainderIsUnique(b, 0, b, m);
    RemainderIsUnique(b', 0, b', m);
  }

  lemma FactorInward(c: int, a: int, b: int, m: nat)
    requires m > 0
    ensures c * (a * b % m) % m == (c * a % m) * b % m
  {
    RemainderOfProduct(a * b, c, m);
    RemainderOfProduct(c * a, b, m);
    assert c * (a * b % m) == (a * b % m) * c;
    assert a * b * c == c * a * b;
  }

  lemma InvertibleCancels(inverse: int, v: int, w: int, m: nat)
    requires m > 1 && 0 <= w < m
    requires inverse * v % m == 1
    requires v * w % m == v % m
    ensures w == 1
  {
    RemainderOfProduct(v * w, inverse, m);
    RemainderOfProduct(v, inverse, m);
    RemainderOfProduct(inverse * v, w, m);
    assert v * w * inverse == inverse * v * w;
    RemainderIsUnique(w, 0, w, m);
  }

  lemma RemainderOfSum(a: int, b: int, m: nat)
    requires m > 0
    ensures (a % m + b) % m == (a + b) % m
  {
    assert a + b == (a % m + b) + (a / m) * m;
    AddMultiple(a % m + b, a / m, m);
  }

  /** Two numbers with the same remainder differ by a multiple, and back. */
  lemma SameRemainder(a: int, b: int, m: nat)
    requires m > 0
    ensures a % m == b % m <==> (a - b) % m == 0
  {
    if a % m == b % m {
      assert a - b == 0 + (a / m - b / m) * m;
      AddMultiple(0, a / m - b / m, m);
    }
    if (a - b) % m == 0 {
      assert a == b + ((a - b) / m) * m;
      AddMultiple(b, (a - b) / m, m);
    }
  }

  function Pow(b: nat, e: nat): nat {
    if e == 0 then 1 else b * Pow(b, e - 1)
  }

  lemma {:induction false} PowAdd(b: nat, i: nat, j: nat)
    ensures Pow(b, i + j) == Pow(b, i) * Pow(b, j)
  {
    if i > 0 {
      PowAdd(b, i - 1, j);
      Regroup(b, Pow(b, i - 1), Pow(b, j));
    }
  }

  lemma Regroup(a: int, b: int, c: int)
    ensures a * (b * c) == a * b * c
  {
  }

  lemma {:induction false} PowMonotone(b: nat, i: nat, j: nat)
    requires b > 0 && i <= j
    ensures 0 < Pow(b, i) <= Pow(b, j)
    decreases j
  {
    if i < j {
      PowMonotone(b, i, j - 1);
      ProductBound(Pow(b, j - 1), b);
    } else if i > 0 {
      PowMonotone(b, i - 1, i - 1);
      ProductBound(Pow(b, i - 1), b);
    }
  }

  ghost function Interval(lo: int, n: nat): (s: set<int>)
    ensures |s| == n
    ensures forall x :: x in s <==> lo <= x < lo + n
  {
    if n == 0 then {} else Interval(lo, n - 1) + {lo + n - 1}
  }

  ghost predicate Distinct(s: seq<int>) {
    forall i, j :: 0 <= i < j < |s| ==> s[i] != s[j]
  }

  lemma {:induction false} DistinctSize(s: seq<int>)
    requires Distinct(s)
    ensures |set x | x in s| == |s|
  {
    if |s| > 0 {
      var init, last := s[..|s| - 1], s[|s| - 1];
      DistinctSize(init);
      assert (set x | x in s) == (set x | x in init) + {last};
    }
  }

  /** n distinct values inside an interval of n values are all of them. */
  lemma Pigeonhole(s: seq<int>, lo: int, v: int)
    requires Distinct(s)
    requires forall i :: 0 <= i < |s| ==> lo <= s[i] < lo + |s|
    requires lo <= v < lo + |s|
    ensures v in s
  {
    DistinctSize(s);
    var values, all := (set x | x in s), Interval(lo, |s|);
    assert values <= all;
    assert |all - values| == |all| - |values|;
    assert v in all && v !in all - values;
  }

  function Gcd(a: nat, b: nat): nat
    decreases b
  {
    if b == 0 then a else Gcd(b, a % b)
  }

  lemma SumOfMultiples(q: int, b: int, r: int, g: nat)
    requires g > 0 && b % g == 0 && r % g == 0
    ensures (q * b + r) % g == 0
  {
    assert q * b + r == r + q * (b / g) * g by {
      assert b == b / g * g;
      assert q * (b / g * g) == q * (b / g) * g;
    }
    AddMultiple(r, q * (b / g), g);
  }

  lemma {:induction false} GcdDivides(a: nat, b: nat)
    requires a > 0 || b > 0
    ensures Gcd(a, b) > 0 && a % Gcd(a, b) == 0 && b % Gcd(a, b) == 0
    decreases b
  {
    if b > 0 {
      GcdDivides(b, a % b);
      SumOfMultiples(a / b, b, a % b, Gcd(b, a % b));
      assert a == (a / b) * b + a % b;
    } else {
      RemainderIsUnique(a, 1, 0, a);
    }
  }

  lemma GcdCofactor(a: nat, b: nat) returns (g: nat, m: nat)
    requires a > 0
    ensures g == Gcd(a, b) && g * m == a && b % g == 0
  {
    GcdDivides(a, b);
    g, m := Gcd(a, b), a / Gcd(a, b);
  }

  lemma BezoutStep(s: int, t: int, q: int, r: int, b: int)
    ensures t * (q * b + r) + (s - t * q) * b == s * b + t * r
  {
    assert t * (q * b + r) == t * (q * b) + t * r;
    assert t * (q * b) == t * q * b;
    assert (s - t * q) * b == s * b - t * q * b;
  }

  /** Bezout's identity. */
  lemma {:induction false} Bezout(a: nat, b: nat) returns (s: int, t: int)
    ensures s * a + t * b == Gcd(a, b)
    decreases b
  {
    if b == 0 {
      s, t := 1, 0;
    } else {
      var s', t' := Bezout(b, a % b);
      s, t := t', s' - t' * (a / b);
      BezoutStep(s', t', a / b, a % b, b);
      assert a == (a / b) * b + a % b;
    }
  }

  predicate Prime(q: nat) {
    q > 1 && forall d :: 1 < d < q ==> q % d != 0
  }

  /** A number below 19^2 that no number up to 18 divides is prime. */
  lemma SievedIsPrime(q: nat)
    requires 1 < q < 361
    requires forall d :: 1 < d <= 18 && d < q ==> q % d != 0
    ensures Prime(q)
  {
    forall d | 1 < d < q ensures q % d != 0 {
      if q % d == 0 {
        var e := q / d;
        assert q == d * e;
        if d > 18 {
          assert e < 19 by { assert e >= 19 ==> d * e >= 19 * 19; }
          assert 1 < e;
          RemainderIsUnique(q, d, 0, e);
        }
      }
    }
  }

  lemma CombineIdentity(q: int, m: int, n: int, s: int, t: int, k: int)
    requires s * q + t * m == 1
    requires q * n == k * m
    ensures n == (s * k + t * n) * m
  {
    calc {
      n;
      (s * q + t * m) * n;
      s * q * n + t * m * n;
      { assert s * q * n == s * (q * n); assert t * m * n == t * n * m; }
      s * (k * m) + t * n * m;
      { assert s * (k * m) == s * k * m; }
      s * k * m + t * n * m;
      (s * k + t * n) * m;
    }
  }

  /** A divisor of q * n that the prime q does not divide is a divisor of n. */
  lemma PrimeCancels(q: nat, m: nat, n: nat)
    requires Prime(q) && m > 0 && m % q != 0
    requires q * n % m == 0
    ensures n % m == 0
  {
    GcdDivides(q, m);
    var g := Gcd(q, m);
    assert g == 1 by {
      if g > q {
        RemainderIsUnique(q, 0, q, g);
      }
    }
    var s, t := Bezout(q, m);
    CombineIdentity(q, m, n, s, t, q * n / m);
    RemainderIsUnique(n, s * (q * n / m) + t * n, 0, m);
  }

  function Product(s: seq<nat>): nat {
    if s == [] then 1 else s[0] * Product(s[1..])
  }

  /** A divisor of a product of primes that none of them divides is 1. */
  lemma {:induction false} CoprimeDivisorIsOne(primes: seq<nat>, m: nat)
    requires m > 0 && Product(primes) % m == 0
    requires forall q :: q in primes ==> Prime(q) && m % q != 0
    ensures m == 1
  {
    if primes == [] {
      if m > 1 {
        RemainderIsUnique(1, 0, 1, m);
      }
    } else {
      PrimeCancels(primes[0], m, Product(primes[1..]));
      CoprimeDivisorIsOne(primes[1..], m);
    }
  }
}
