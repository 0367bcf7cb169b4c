/** The 32-bit generator: a shift-and-fold multiplication by 48271 modulo the Mersenne prime 2^31 - 1, whose
    comment claims a period of 1 or 2147483646. */
module Lcg32 {
  import opened Words
  import opened Modular

  const P: nat := 2147483647
  const ORDER: nat := 2147483646
  const TWO_31: nat := 0x8000_0000

  /** The generator's step, operation by operation: masks and shifts by a power of two are remainders and quotients,
      the product is 64 bits wide, and the casts and the sum of the two halves are 32 bits wide. */
  function Next(x: u32): u32 {
    var sign := x / TWO_31;
    var seed1 := Fold(x % TWO_31);
    seed1 % TWO_31 + (if sign != 0 || seed1 >= TWO_31 then TWO_31 else 0)
  }

  function Fold(low: u32): u32 {
    var mul := low * 48271 % TWO_64;
    var hi33 := mul / TWO_31 % TWO_32;
    var lo31 := mul % TWO_31;
    var seed1 := (hi33 + lo31) % TWO_32;
    (seed1 % TWO_31 + seed1 / TWO_31) % TWO_32
  }

  function Iterate(x: u32, k: nat): u32 {
    if k == 0 then x else Next(Iterate(x, k - 1))
  }

  predicate Degenerate(x: u32) {
    x % TWO_31 == 0 || x % TWO_31 == P
  }

  /** 48271 is invertible modulo 2^31 - 1, so it sends no non-zero residue to zero. */
  lemma MultiplierCancels(low: nat)
    requires low * 48271 % P == 0
    ensures low % P == 0
  {
    var inverse := 1899818559;
    var k := low * 48271 / P;
    assert 48271 * inverse == 1 + 42704 * P;
    assert low == 0 + (k * inverse - low * 42704) * P by {
      assert low * 48271 == k * P;
      assert low * 48271 * inverse == k * P * inverse;
      assert low * (48271 * inverse) == low + low * 42704 * P;
    }
    AddMultiple(0, k * inverse - low * 42704, P);
  }

  lemma FoldSubtractsOnce(low: nat, hi: int, lo: int)
    requires low < TWO_31
    requires low * 48271 == hi * TWO_31 + lo && 0 <= lo < TWO_31
    ensures 0 <= hi <= 48270
    ensures Fold(low) == if hi + lo >= TWO_31 then hi + lo - P else hi + lo
  {
    RemainderIsUnique(low * 48271, 0, low * 48271, TWO_64);
    RemainderIsUnique(low * 48271, hi, lo, TWO_31);
    RemainderIsUnique(hi, 0, hi, TWO_32);
    RemainderIsUnique(hi + lo, 0, hi + lo, TWO_32);
    var carry := if hi + lo >= TWO_31 then 1 else 0;
    RemainderIsUnique(hi + lo, carry, hi + lo - carry * TWO_31, TWO_31);
    RemainderIsUnique(hi + lo - carry * TWO_31 + carry, 0, hi + lo - carry * TWO_31 + carry, TWO_32);
  }

  /** The fold is exact: multiplication modulo 2^31 - 1, except that 2^31 - 1 itself is left alone. */
  lemma FoldIsMultiplication(low: nat)
    requires 0 < low < P
    ensures Fold(low) == low * 48271 % P && 0 < Fold(low) < P
  {
    var hi, lo := low * 48271 / TWO_31, low * 48271 % TWO_31;
    FoldSubtractsOnce(low, hi, lo);
    RemainderIsUnique(low, 0, low, P);
    if low * 48271 % P == 0 {
      MultiplierCancels(low);
    }
    FoldedIsReduced(low * 48271, if hi + lo >= TWO_31 then hi + 1 else hi, Fold(low));
  }

  lemma FoldedIsReduced(product: nat, q: int, folded: int)
    requires product == q * P + folded && 0 <= folded <= P
    requires product % P != 0
    ensures folded == product % P
  {
    assert product == product / P * P + product % P;
  }

  /** The step multiplies the low 31 bits by 48271 modulo 2^31 - 1, keeps the sign bit, and fixes the two seeds
      on which the multiplicative generator is undefined. */
  lemma NextIsMultiplication(x: u32)
    ensures Next(x) / TWO_31 == x / TWO_31
    ensures Degenerate(x) ==> Next(x) == x
    ensures !Degenerate(x) ==> Next(x) % TWO_31 == x % TWO_31 * 48271 % 2147483647 && !Degenerate(Next(x))
  {
    if Degenerate(x) {
      FoldSubtractsOnce(0, 0, 0);
      FoldSubtractsOnce(P, 48270, TWO_31 - 48271);
    } else {
      FoldIsMultiplication(x % TWO_31);
    }
    var folded := Fold(x % TWO_31);
    RemainderIsUnique(folded, 0, folded, TWO_31);
    RemainderIsUnique(Next(x), x / TWO_31, folded, TWO_31);
  }

  // ---- Powers of the multiplier

  ghost function Power(k: nat): nat {
    if k == 0 then 1 else 48271 * Power(k - 1) % P
  }

  lemma {:induction false} PowerAdd(i: nat, j: nat)
    ensures Power(i + j) == Power(i) * Power(j) % P
    ensures 0 <= Power(j) < P
    decreases i, j
  {
    if i > 0 {
      PowerAdd(i - 1, j);
      FactorInward(48271, Power(i - 1), Power(j), P);
    } else if j > 0 {
      PowerAdd(0, j - 1);
    }
  }

  /** A power of the multiplier whose residue has been computed. */
  datatype Computed = Computed(exponent: nat, residue: nat)

  ghost predicate Correct(c: Computed) {
    Power(c.exponent) == c.residue
  }

  lemma Times(x: Computed, y: Computed, q: nat, r: nat) returns (z: Computed)
    requires Correct(x) && Correct(y)
    requires x.residue * y.residue == q * P + r && r < P
    ensures Correct(z) && z.exponent == x.exponent + y.exponent && z.residue == r
  {
    z := Computed(x.exponent + y.exponent, r);
    PowerAdd(x.exponent, y.exponent);
    RemainderIsUnique(x.residue * y.residue, q, r, P);
  }


  /** The power whose order is 31 * 151 * 331. */
  lemma RaiseBySmallPrimes(x: Computed) returns (y: Computed)
    requires Correct(x) && x.residue == 48271
    ensures Correct(y) && y.exponent == x.exponent * 1386 && y.residue == 739992498
  {
    var x2 := Times(x, x, 1, 182605794); var x4 := Times(x2, x2, 15527417, 1914720637);
    var x8 := Times(x4, x4, 1707186512, 854716505); var x10 := Times(x2, x8, 72678637, 1596680831);
    var x16 := Times(x8, x8, 340184338, 1098894339); var x32 := Times(x16, x16, 562318027, 890442452);
    var x42 := Times(x10, x32, 662055050, 928270262); var x64 := Times(x32, x32, 369217135, 719080959);
    var x106 := Times(x42, x64, 310829594, 91491940); var x128 := Times(x64, x64, 240782939, 1617261148);
    var x256 := Times(x128, x128, 1217952753, 944147713); var x362 := Times(x106, x256, 40224709, 1126099497);
    var x512 := Times(x256, x256, 415097411, 1928592452); var x1024 := Times(x512, x512, 1732012651, 1491754107);
    var x1386 := Times(x362, x1024, 782247423, 739992498);
    y := x1386;
  }

  /** The power whose order is 2 * 3^2 * 7 * 11. */
  lemma RaiseByLargePrimes(x: Computed) returns (y: Computed)
    requires Correct(x) && x.residue == 48271
    ensures Correct(y) && y.exponent == x.exponent * 1549411 && y.residue == 73136486
  {
    var x2 := Times(x, x, 1, 182605794); var x3 := Times(x, x2, 4104, 1291394886);
    var x4 := Times(x2, x2, 15527417, 1914720637); var x8 := Times(x4, x4, 1707186512, 854716505);
    var x16 := Times(x8, x8, 340184338, 1098894339); var x32 := Times(x16, x16, 562318027, 890442452);
    var x35 := Times(x3, x32, 535469888, 849178936); var x64 := Times(x32, x32, 369217135, 719080959);
    var x99 := Times(x35, x64, 284346008, 1391748448); var x128 := Times(x64, x64, 240782939, 1617261148);
    var x256 := Times(x128, x128, 1217952753, 944147713); var x512 := Times(x256, x256, 415097411, 1928592452);
    var x1024 := Times(x512, x512, 1732012651, 1491754107); var x1123 := Times(x99, x1024, 966781035, 322641291);
    var x2048 := Times(x1024, x1024, 1036250180, 560989); var x4096 := Times(x2048, x2048, 146, 1176045659);
    var x8192 := Times(x4096, x4096, 644048393, 208615010); var x9315 := Times(x1123, x8192, 31342644, 704635242);
    var x16384 := Times(x8192, x8192, 20265682, 1706997846);
    var x32768 := Times(x16384, x16384, 1356863252, 1363399672);
    var x42083 := Times(x9315, x32768, 447360546, 974449362);
    var x65536 := Times(x32768, x32768, 865598519, 1189788791);
    var x107619 := Times(x42083, x65536, 539882541, 206394315);
    var x131072 := Times(x65536, x65536, 659188892, 1335192557);
    var x238691 := Times(x107619, x131072, 128325146, 661225993);
    var x262144 := Times(x131072, x131072, 830152614, 1188894991);
    var x500835 := Times(x238691, x262144, 366069502, 1786267269);
    var x524288 := Times(x262144, x262144, 658198865, 563429426);
    var x1048576 := Times(x524288, x524288, 147825441, 924626149);
    var x1549411 := Times(x500835, x1048576, 769099885, 73136486);
    y := x1549411;
  }

  /** Its powers at its order over 2, 3, 7 and 11. */
  lemma SmallCofactors(x: Computed) returns (by2: Computed, by3: Computed, by7: Computed, by11: Computed)
    requires Correct(x) && x.residue == 73136486
    ensures Correct(by2) && by2.exponent == x.exponent * 693 && by2.residue == 2147483646
    ensures Correct(by3) && by3.exponent == x.exponent * 462 && by3.residue == 634005911
    ensures Correct(by7) && by7.exponent == x.exponent * 198 && by7.residue == 1752599774
    ensures Correct(by11) && by11.exponent == x.exponent * 126 && by11.residue == 219454379
  {
    var x2 := Times(x, x, 2490796, 1906415184); var x4 := Times(x2, x2, 1692408162, 1841427042);
    var x5 := Times(x, x4, 62713168, 345690716); var x8 := Times(x4, x4, 1578989230, 794747954);
    var x16 := Times(x8, x8, 294122989, 1302925233); var x21 := Times(x5, x16, 209738107, 1755000599);
    var x32 := Times(x16, x16, 790513196, 1640398477); var x53 := Times(x21, x32, 1340592424, 1901597395);
    var x64 := Times(x32, x32, 1253051294, 626730311); var x128 := Times(x64, x64, 182907508, 382635045);
    var x181 := Times(x53, x128, 338823443, 1744971154); var x256 := Times(x128, x128, 68177272, 945081041);
    var x512 := Times(x256, x256, 415918498, 1117841475); var x693 := Times(x181, x512, 908319432, 2147483646);
    var x6 := Times(x2, x4, 1634715346, 62058866); var x14 := Times(x6, x8, 22966953, 792142573);
    var x78 := Times(x14, x64, 231182091, 1230864326); var x206 := Times(x78, x128, 219313347, 516568161);
    var x462 := Times(x206, x256, 227335270, 634005911); var x70 := Times(x6, x64, 18111510, 841010356);
    var x198 := Times(x70, x128, 149849818, 1752599774); var x30 := Times(x14, x16, 480610200, 1413845109);
    var x62 := Times(x30, x32, 1079993957, 2001177814); var x126 := Times(x62, x64, 584031825, 219454379);
    by2, by3, by7, by11 := x693, x462, x198, x126;
  }

  /** Its powers at its order over 31, 151 and 331. */
  lemma LargeCofactors(x: Computed) returns (by31: Computed, by151: Computed, by331: Computed)
    requires Correct(x) && x.residue == 739992498
    ensures Correct(by31) && by31.exponent == x.exponent * 49981 && by31.residue == 64
    ensures Correct(by151) && by151.exponent == x.exponent * 10261 && by151.residue == 556613938
    ensures Correct(by331) && by331.exponent == x.exponent * 4681 && by331.residue == 1627574666
  {
    var x2 := Times(x, x, 254990950, 1838285354); var x4 := Times(x2, x2, 1573605949, 431489313);
    var x5 := Times(x, x4, 148685115, 1572359469); var x8 := Times(x4, x4, 86698228, 379334453);
    var x13 := Times(x5, x8, 277743730, 860702147); var x16 := Times(x8, x8, 67006157, 826994630);
    var x29 := Times(x13, x16, 331455866, 1661247308); var x32 := Times(x16, x16, 318475122, 1577506966);
    var x61 := Times(x29, x32, 1220325567, 1470244679); var x64 := Times(x32, x32, 1158811258, 1264027230);
    var x128 := Times(x64, x64, 744017231, 1522751443); var x256 := Times(x128, x128, 1079762335, 99546504);
    var x317 := Times(x61, x256, 68153123, 684572635); var x512 := Times(x256, x256, 4614473, 1151598985);
    var x829 := Times(x317, x512, 367105543, 1309220154); var x1024 := Times(x512, x512, 617550789, 1683582742);
    var x2048 := Times(x1024, x1024, 1319894031, 1814827507); var x4096 := Times(x2048, x2048, 1533701495, 271882784);
    var x8192 := Times(x4096, x4096, 34421797, 2077736997); var x16384 := Times(x8192, x8192, 2010255600, 1412404809);
    var x17213 := Times(x829, x16384, 861077030, 816992176); var x32768 := Times(x16384, x16384, 928941809, 644229058);
    var x49981 := Times(x17213, x32768, 245091552, 64); var x21 := Times(x5, x16, 605514663, 481435509);
    var x2069 := Times(x21, x2048, 406858699, 1837550810); var x10261 := Times(x2069, x8192, 1777870256, 556613938);
    var x9 := Times(x, x8, 130713288, 1027332258); var x73 := Times(x9, x64, 604696548, 142034784);
    var x585 := Times(x73, x512, 76166872, 1025952056); var x4681 := Times(x585, x4096, 129890954, 1627574666);
    by31, by151, by331 := x49981, x10261, x4681;
  }

  /** The eight powers of 48271 that decide its order. */
  lemma OrderCertificate()
    returns (full: Computed, by2: Computed, by3: Computed, by7: Computed, by11: Computed, by31: Computed,
             by151: Computed, by331: Computed)
    ensures Correct(full) && full.exponent == ORDER && full.residue == 1
    ensures Correct(by2) && 2 * by2.exponent == ORDER && by2.residue != 1
    ensures Correct(by3) && 3 * by3.exponent == ORDER && by3.residue != 1
    ensures Correct(by7) && 7 * by7.exponent == ORDER && by7.residue != 1
    ensures Correct(by11) && 11 * by11.exponent == ORDER && by11.residue != 1
    ensures Correct(by31) && 31 * by31.exponent == ORDER && by31.residue != 1
    ensures Correct(by151) && 151 * by151.exponent == ORDER && by151.residue != 1
    ensures Correct(by331) && 331 * by331.exponent == ORDER && by331.residue != 1
  {
    var one := Computed(1, 48271);
    assert Correct(one) by { assert Power(one.exponent - 1) == 1; }
    var u := RaiseByLargePrimes(one);
    var v := RaiseBySmallPrimes(one);
    by2, by3, by7, by11 := SmallCofactors(u);
    by31, by151, by331 := LargeCofactors(v);
    full := Times(by2, by2, 2147483645, 1);
  }

  // ---- The order of the multiplier is exactly 2^31 - 2

  lemma {:induction false} PowerOfUnit(k: nat, m: nat)
    requires Power(k) == 1
    ensures Power(k * m) == 1
  {
    if m > 0 {
      PowerOfUnit(k, m - 1);
      PowerAdd(k, k * (m - 1));
      assert k * m == k + k * (m - 1);
    } else {
      assert k * m == 0;
    }
  }

  lemma UnitPowerAdds(u: nat, r: nat)
    requires Power(u) == 1
    ensures Power(u + r) == Power(r)
  {
    PowerAdd(u, r);
    RemainderIsUnique(Power(r), 0, Power(r), P);
  }

  lemma PowerOfRemainder(a: nat, b: nat)
    requires b > 0 && Power(a) == 1 && Power(b) == 1
    ensures Power(a % b) == 1
  {
    hide Power;
    PowerOfUnit(b, a / b);
    UnitPowerAdds(b * (a / b), a % b);
    assert a == b * (a / b) + a % b;
  }

  /** The exponents that give 1 are closed under greatest common divisors. */
  lemma {:induction false} PowerOfGcd(a: nat, b: nat)
    requires Power(a) == 1 && Power(b) == 1
    ensures Power(Gcd(a, b)) == 1
    decreases b
  {
    if b > 0 {
      PowerOfRemainder(a, b);
      PowerOfGcd(b, a % b);
    }
  }

  /** 2^31 - 2 = 2 * 3^2 * 7 * 11 * 31 * 151 * 331. */
  const PRIMES: seq<nat> := [2, 3, 3, 7, 11, 31, 151, 331]

  lemma FactorsArePrime(q: nat)
    requires q in PRIMES
    ensures Prime(q)
  {
    SievedIsPrime(q);
  }

  lemma Factorisation()
    ensures Product(PRIMES) == ORDER
  {
    var s := PRIMES;
    assert Product(s[7..]) == 331 by { assert s[7..][1..] == []; }
    assert Product(s[6..]) == 49981 by { assert s[6..][1..] == s[7..]; }
    assert Product(s[5..]) == 1549411 by { assert s[5..][1..] == s[6..]; }
    assert Product(s[4..]) == 17043521 by { assert s[4..][1..] == s[5..]; }
    assert Product(s[3..]) == 119304647 by { assert s[3..][1..] == s[4..]; }
    assert Product(s[2..]) == 357913941 by { assert s[2..][1..] == s[3..]; }
    assert Product(s[1..]) == 1073741823 by { assert s[1..][1..] == s[2..]; }
  }

  /** The cofactor of an exponent that gives 1 is not a multiple of q if the power at (2^31 - 2) / q is not 1. */
  lemma CofactorExcludes(g: nat, m: nat, q: nat, c: Computed)
    requires Power(g) == 1 && g * m == ORDER
    requires q > 0 && q * c.exponent == ORDER && Correct(c) && c.residue != 1
    ensures m % q != 0
  {
    if m % q == 0 {
      var n := m / q;
      assert q * (g * n) == q * c.exponent;
      assert g * n == c.exponent;
      PowerOfUnit(g, n);
    }
  }

  lemma PrimeExcluded(g: nat, m: nat, q: nat)
    requires Power(g) == 1 && g * m == ORDER && q in PRIMES
    ensures m % q != 0
  {
    var full, by2, by3, by7, by11, by31, by151, by331 := OrderCertificate();
    var c := if q == 2 then by2 else if q == 3 then by3 else if q == 7 then by7 else if q == 11 then by11
             else if q == 31 then by31 else if q == 151 then by151 else by331;
    CofactorExcludes(g, m, q, c);
  }

  lemma CofactorIsOne(g: nat, m: nat)
    requires Power(g) == 1 && g * m == ORDER
    ensures m == 1
  {
    Factorisation();
    RemainderIsUnique(ORDER, g, 0, m);
    forall q | q in PRIMES ensures Prime(q) && m % q != 0 {
      FactorsArePrime(q);
      PrimeExcluded(g, m, q);
    }
    CoprimeDivisorIsOne(PRIMES, m);
  }

  /** An exponent that gives 1 is a multiple of 2^31 - 2: its greatest common divisor with 2^31 - 2 also gives 1,
      so it has cofactor 1. */
  lemma UnitExponentIsMultiple(k: nat)
    requires 0 < k && Power(k) == 1
    ensures k % ORDER == 0
  {
    hide Power;
    FullPowerIsOne();
    PowerOfGcd(ORDER, k);
    var g, m := GcdCofactor(ORDER, k);
    CofactorIsOne(g, m);
  }

  /** The powers of 48271 return to 1 exactly at the multiples of 2^31 - 2. */
  lemma OrderIsExact(k: nat)
    requires 0 < k
    ensures Power(k) == 1 <==> k % ORDER == 0
  {
    if k % ORDER == 0 {
      var full, by2, by3, by7, by11, by31, by151, by331 := OrderCertificate();
      PowerOfUnit(full.exponent, k / ORDER);
    }
    if Power(k) == 1 {
      UnitExponentIsMultiple(k);
    }
  }

  lemma PowerIsNonZero(i: nat)
    requires i < ORDER
    ensures 1 <= Power(i) < P
  {
    PowerAdd(ORDER - i, i);
    FullPowerIsOne();
    assert Power(i) == 0 ==> Power(ORDER - i) * Power(i) == 0;
  }

  // ---- The orbit of a seed

  lemma {:induction false} IterateIsPower(x: u32, k: nat)
    requires !Degenerate(x)
    ensures Iterate(x, k) / TWO_31 == x / TWO_31 && !Degenerate(Iterate(x, k))
    ensures Iterate(x, k) % TWO_31 == x % TWO_31 * Power(k) % P
  {
    var v := x % TWO_31;
    if k == 0 {
      RemainderIsUnique(v, 0, v, P);
    } else {
      IterateIsPower(x, k - 1);
      NextIsMultiplication(Iterate(x, k - 1));
      MoveFactor(v, Power(k - 1), 48271, P);
    }
  }

  lemma {:induction false} DegenerateIsFixed(x: u32, k: nat)
    requires Degenerate(x)
    ensures Iterate(x, k) == x
  {
    if k > 0 {
      DegenerateIsFixed(x, k - 1);
      NextIsMultiplication(x);
    }
  }

  lemma FullPowerIsOne()
    ensures Power(ORDER) == 1
  {
    var full, by2, by3, by7, by11, by31, by151, by331 := OrderCertificate();
  }

  lemma NoUnitBelowOrder(k: nat)
    requires 0 < k < ORDER
    ensures Power(k) != 1
  {
    OrderIsExact(k);
    RemainderIsUnique(k, 0, k, ORDER);
  }

  lemma EqualPowersShift(i: nat, j: nat, d: nat)
    requires Power(i) == Power(j)
    ensures Power(i + d) == Power(j + d)
  {
    PowerAdd(i, d);
    PowerAdd(j, d);
  }

  /** Powers below the order are distinct: a repetition would end the cycle early. */
  lemma PowersAreDistinct(i: nat, j: nat)
    requires i < j < ORDER
    ensures Power(i) != Power(j)
  {
    FullPowerIsOne();
    NoUnitBelowOrder(i + (ORDER - j));
    if Power(i) == Power(j) {
      EqualPowersShift(i, j, ORDER - j);
    }
  }

  ghost function PowerTable(n: nat): (s: seq<int>)
    ensures |s| == n && forall i :: 0 <= i < n ==> s[i] == Power(i)
  {
    seq(n, i requires 0 <= i => Power(i))
  }

  /** 48271 generates every non-zero residue, so each one is invertible (and 2^31 - 1 is prime). */
  lemma EveryResidueIsAPower(v: nat) returns (e: nat)
    requires 0 < v < P
    ensures e < ORDER && Power(e) == v
  {
    var powers := PowerTable(ORDER);
    forall i, j | 0 <= i < j < |powers| ensures powers[i] != powers[j] {
      PowersAreDistinct(i, j);
    }
    forall i | 0 <= i < |powers| ensures 1 <= powers[i] < 1 + |powers| {
      PowerIsNonZero(i);
    }
    Pigeonhole(powers, 1, v);
    e :| 0 <= e < |powers| && powers[e] == v;
  }

  /** The claimed period, for all seeds: a seed whose low 31 bits are 0 or 2^31 - 1 is fixed, and from any other seed
      the generator returns to it exactly after the multiples of 2147483646 steps. */
  lemma PeriodIsExact(x: u32, k: nat)
    ensures Degenerate(x) ==> Iterate(x, k) == x
    ensures !Degenerate(x) ==> (Iterate(x, k) == x <==> k % 2147483646 == 0)
    ensures Degenerate(x) <==> x % 0x8000_0000 == 0 || x % 0x8000_0000 == 0x7fff_ffff
  {
    if Degenerate(x) {
      DegenerateIsFixed(x, k);
    } else if k > 0 {
      OrderIsExact(k);
      IterateIsPower(x, k);
      ReturnsWhenPowerIsOne(x % TWO_31, k);
    }
  }

  lemma ReturnsWhenPowerIsOne(v: nat, k: nat)
    requires 0 < v < P
    ensures v * Power(k) % P == v <==> Power(k) == 1
  {
    var e := EveryResidueIsAPower(v);
    PowerAdd(ORDER - e, e);
    PowerAdd(0, k);
    FullPowerIsOne();
    RemainderIsUnique(v, 0, v, P);
    if v * Power(k) % P == v {
      InvertibleCancels(Power(ORDER - e), v, Power(k), P);
    }
  }

  lemma PowerAroundTheCycle(j: nat)
    ensures Power(ORDER + j) == Power(j)
  {
    FullPowerIsOne();
    UnitPowerAdds(ORDER, j);
  }

  lemma QuotientOfPowers(v: nat, w: nat) returns (k: nat)
    requires 0 < v < P && 0 < w < P
    ensures k < ORDER && v * Power(k) % P == w
  {
    var i := EveryResidueIsAPower(v);
    var j := EveryResidueIsAPower(w);
    if i <= j {
      k := j - i;
      PowerAdd(i, k);
    } else {
      k := ORDER - i + j;
      PowerAdd(i, k);
      PowerAroundTheCycle(j);
      assert i + k == ORDER + j;
    }
  }

  /** One cycle per sign: from a non-degenerate seed every non-degenerate seed of the same sign is reached. */
  lemma CycleIsFull(x: u32, y: u32) returns (k: nat)
    requires !Degenerate(x) && !Degenerate(y) && x / TWO_31 == y / TWO_31
    ensures k < ORDER && Iterate(x, k) == y
  {
    k := QuotientOfPowers(x % TWO_31, y % TWO_31);
    IterateIsPower(x, k);
  }

  /** The generator object. */
  class Generator {
    var seed: u32

    constructor (s: u32)
      ensures seed == s
    {
      seed := s;
    }

    method Step() returns (r: u32)
      modifies this
      ensures seed == r == Next(old(seed))
    {
      seed := Next(seed);
      r := seed;
    }
  }
}
