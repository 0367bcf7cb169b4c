/** Conversion between performance-counter ticks and microseconds in 64-bit arithmetic, splitting the operand so that
    the product of a full-width count is never formed. */
module TimeConversion {
  import opened Words
  import opened Modular

  const MICROSECONDS: nat := 1000000

  /** count * multiplier / divisor by halves, each operation wrapping at 64 bits. */
  function MulDiv(count: u64, multiplier: u64, divisor: u64): u64
    requires divisor > 0
  {
    var high := count / TWO_32 * multiplier % TWO_64;
    var low := count % TWO_32 * multiplier % TWO_64;
    (high / divisor * TWO_32 % TWO_64 + (low + high % divisor * TWO_32 % TWO_64) % TWO_64 / divisor) % TWO_64
  }

  /** QuicTimePlatToUs64, for a counter of the given frequency. */
  function PlatToUs(count: u64, frequency: u64): u64
    requires frequency > 0
  {
    MulDiv(count, MICROSECONDS, frequency)
  }

  /** CxPlatTimeUs64ToPlat */
  function UsToPlat(timeUs: u64, frequency: u64): u64
  {
    MulDiv(timeUs, frequency, MICROSECONDS)
  }

  /** The halves of the long division. */
  lemma LongDivision(high: nat, low: nat, divisor: nat)
    requires divisor > 0
    ensures (high * TWO_32 + low) / divisor == high / divisor * TWO_32 + (low + high % divisor * TWO_32) / divisor
  {
    var q, r := high / divisor, high % divisor;
    var n := low + r * TWO_32;
    assert high * TWO_32 + low == (q * TWO_32 + n / divisor) * divisor + n % divisor by {
      assert high == q * divisor + r;
      assert (q * TWO_32 + n / divisor) * divisor == q * TWO_32 * divisor + n / divisor * divisor;
      assert q * TWO_32 * divisor == q * divisor * TWO_32;
    }
    RemainderIsUnique(high * TWO_32 + low, q * TWO_32 + n / divisor, n % divisor, divisor);
  }

  /** If neither half-product nor the second dividend overflows, the result is the exact quotient modulo 2^64. */
  lemma MulDivIsExact(count: u64, multiplier: u64, divisor: u64)
    requires divisor > 0
    requires count / TWO_32 * multiplier < TWO_64 && count % TWO_32 * multiplier < TWO_64
    requires count % TWO_32 * multiplier + (divisor - 1) * TWO_32 < TWO_64
    ensures MulDiv(count, multiplier, divisor) == count * multiplier / divisor % TWO_64
  {
    var h, l := count / TWO_32, count % TWO_32;
    var high, low := h * multiplier, l * multiplier;
    var r := high % divisor;
    assert count * multiplier == high * TWO_32 + low by {
      assert count == h * TWO_32 + l;
      assert (h * TWO_32 + l) * multiplier == h * TWO_32 * multiplier + l * multiplier;
      assert h * TWO_32 * multiplier == h * multiplier * TWO_32;
    }
    LongDivision(high, low, divisor);
    RemainderIsUnique(high, 0, high, TWO_64);
    RemainderIsUnique(low, 0, low, TWO_64);
    RemainderIsUnique(r * TWO_32, 0, r * TWO_32, TWO_64);
    RemainderIsUnique(low + r * TWO_32, 0, low + r * TWO_32, TWO_64);
    RemainderOfSum(high / divisor * TWO_32, (low + r * TWO_32) / divisor, TWO_64);
  }

  lemma WrapsToItself(q: int)
    ensures 0 <= q < TWO_64 ==> q % TWO_64 == q
  {
  }

  /** Ticks to microseconds is the floor of the wide quotient whenever that fits, for any frequency up to
      2^32 - 2^20. */
  lemma PlatToUsIsFloor(count: u64, frequency: u64)
    requires 0 < frequency <= 0xFFF0_0000
    ensures PlatToUs(count, frequency) == count * 1000000 / frequency % TWO_64
    ensures count * 1000000 / frequency < TWO_64 ==> PlatToUs(count, frequency) == count * 1000000 / frequency
  {
    hide MulDiv;
    MulDivIsExact(count, MICROSECONDS, frequency);
    WrapsToItself(count * MICROSECONDS / frequency);
  }

  /** Microseconds to ticks likewise. */
  lemma UsToPlatIsFloor(timeUs: u64, frequency: u64)
    requires 0 < frequency <= 0xFFF0_0000
    ensures UsToPlat(timeUs, frequency) == timeUs * frequency / 1000000 % TWO_64
    ensures timeUs * frequency / 1000000 < TWO_64
            ==> UsToPlat(timeUs, frequency) == timeUs * frequency / 1000000
  {
    hide MulDiv;
    ProductBelow(timeUs / TWO_32, TWO_32 - 1, frequency, 0xFFF0_0000);
    ProductBelow(timeUs % TWO_32, TWO_32 - 1, frequency, 0xFFF0_0000);
    MulDivIsExact(timeUs, frequency, MICROSECONDS);
    WrapsToItself(timeUs * frequency / MICROSECONDS);
  }

  lemma ProductBelow(a: nat, b: nat, c: nat, d: nat)
    requires a <= b && c <= d
    ensures a * c <= b * d
  {
    assert (b - a) * c >= 0;
    assert (b - a) * c == b * c - a * c;
    assert b * (d - c) >= 0;
    assert b * (d - c) == b * d - b * c;
  }

  /** From a counter of at least a megahertz, a time converted to ticks and back never grows and shrinks by at most
      one microsecond. */
  lemma RoundTripLosesAtMostOne(timeUs: u64, frequency: u64)
    requires 1000000 <= frequency <= 0xFFF0_0000
    requires timeUs * frequency / 1000000 < TWO_64
    ensures PlatToUs(UsToPlat(timeUs, frequency), frequency) <= timeUs
         <= PlatToUs(UsToPlat(timeUs, frequency), frequency) + 1
  {
    hide MulDiv;
    UsToPlatIsFloor(timeUs, frequency);
    var ticks := UsToPlat(timeUs, frequency);
    FloorOfFloor(timeUs, frequency, MICROSECONDS, ticks);
    PlatToUsIsFloor(ticks, frequency);
  }

  lemma FloorOfFloor(t: nat, f: nat, m: nat, ticks: nat)
    requires 0 < m <= f && ticks == t * f / m
    ensures ticks * m / f <= t <= ticks * m / f + 1
  {
    assert ticks * m <= t * f < ticks * m + m;
    var q := ticks * m / f;
    assert q * f <= ticks * m < q * f + f by {
      assert ticks * m == q * f + ticks * m % f;
    }
    FewerThanTwo(t, q, f);
  }

  lemma FewerThanTwo(t: int, q: int, f: nat)
    requires f > 0 && q * f <= t * f < q * f + 2 * f
    ensures q <= t <= q + 1
  {
    assert (t - q) * f == t * f - q * f;
    assert t - q >= 2 ==> (t - q) * f >= 2 * f;
    assert t - q <= -1 ==> (t - q) * f <= -1 * f;
  }

  /** The user-mode copy of CxPlatTimeUs64ToPlat, whose low half divides by the frequency. */
  function UserUsToPlat(timeUs: u64, frequency: u64): u64
    requires frequency > 0
  {
    var high := timeUs / TWO_32 * frequency % TWO_64;
    var low := timeUs % TWO_32 * frequency % TWO_64;
    (high / MICROSECONDS * TWO_32 % TWO_64
     + (low + high % MICROSECONDS * TWO_32 % TWO_64) % TWO_64 / frequency) % TWO_64
  }

  lemma QuotientOfSum(l: nat, n: nat, f: nat)
    requires f > 0
    ensures (l * f + n) / f == l + n / f
  {
    assert l * f + n == (l + n / f) * f + n % f by {
      assert (l + n / f) * f == l * f + n / f * f;
    }
    RemainderIsUnique(l * f + n, l + n / f, n % f, f);
  }

  /** What it returns: the low half as it is, the high half's ticks, and the remainder of these divided by the frequency
      instead of a million. */
  lemma UserModeValue(timeUs: u64, frequency: u64)
    requires 0 < frequency <= 0xFFF0_0000
    ensures var high, low := timeUs / TWO_32 * frequency, timeUs % TWO_32;
            UserUsToPlat(timeUs, frequency)
            == (high / 1000000 * TWO_32 + low + high % 1000000 * TWO_32 / frequency) % TWO_64
  {
    var high, low := timeUs / TWO_32 * frequency, timeUs % TWO_32;
    ProductBelow(timeUs / TWO_32, TWO_32 - 1, frequency, 0xFFF0_0000);
    ProductBelow(low, TWO_32 - 1, frequency, 0xFFF0_0000);
    var r := high % 1000000 * TWO_32;
    RemainderIsUnique(high, 0, high, TWO_64);
    RemainderIsUnique(low * frequency, 0, low * frequency, TWO_64);
    RemainderIsUnique(r, 0, r, TWO_64);
    RemainderIsUnique(low * frequency + r, 0, low * frequency + r, TWO_64);
    QuotientOfSum(low, r, frequency);
    RemainderOfSum(high / 1000000 * TWO_32, low + r / frequency, TWO_64);
  }

  /** It returns any time below 2^32 microseconds as it is. */
  lemma UserModeReturnsMicroseconds(timeUs: u64, frequency: u64)
    requires 0 < frequency <= 0xFFF0_0000 && timeUs < TWO_32
    ensures UserUsToPlat(timeUs, frequency) == timeUs
  {
    ProductBelow(timeUs, TWO_32 - 1, frequency, 0xFFF0_0000);
    RemainderIsUnique(timeUs * frequency, 0, timeUs * frequency, TWO_64);
    RemainderIsUnique(timeUs * frequency, timeUs, 0, frequency);
    assert timeUs / TWO_32 == 0 && timeUs % TWO_32 == timeUs;
    assert 0 * frequency == 0;
  }

  /** The two copies agree on every time exactly if the counter runs at a megahertz. */
  lemma UserModeAgreesExactlyAtAMegahertz(frequency: u64)
    requires 0 < frequency <= 0xFFF0_0000
    ensures (forall timeUs: u64 :: UserUsToPlat(timeUs, frequency) == UsToPlat(timeUs, frequency))
       <==> frequency == 1000000
  {
    UserModeReturnsMicroseconds(MICROSECONDS, frequency);
    UsToPlatIsFloor(MICROSECONDS, frequency);
    RemainderIsUnique(MICROSECONDS * frequency, frequency, 0, MICROSECONDS);
  }
}
