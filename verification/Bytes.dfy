/** Byte strings as numbers, least or most significant byte first. */
module Bytes {
  import opened Words
  import opened Modular

  function FromLE(b: seq<byte>): nat {
    if b == [] then 0 else b[0] + 256 * FromLE(b[1..])
  }

  function ToLE(v: nat, n: nat): (b: seq<byte>)
    ensures |b| == n
    decreases n
  {
    if n == 0 then [] else [v % 256] + ToLE(v / 256, n - 1)
  }

  function FromBE(b: seq<byte>): nat {
    if b == [] then 0 else 256 * FromBE(b[..|b| - 1]) + b[|b| - 1]
  }

  function ToBE(v: nat, n: nat): (b: seq<byte>)
    ensures |b| == n
    decreases n
  {
    if n == 0 then [] else ToBE(v / 256, n - 1) + [v % 256]
  }

  lemma {:induction false} FromLEBound(b: seq<byte>)
    ensures FromLE(b) < Pow(256, |b|)
  {
    if b != [] {
      FromLEBound(b[1..]);
    }
  }

  lemma {:induction false} FromBEBound(b: seq<byte>)
    ensures FromBE(b) < Pow(256, |b|)
  {
    if b != [] {
      FromBEBound(b[..|b| - 1]);
    }
  }

  lemma {:induction false} LERoundTrip(v: nat, n: nat)
    requires v < Pow(256, n)
    ensures FromLE(ToLE(v, n)) == v
    decreases n
  {
    if n > 0 {
      LERoundTrip(v / 256, n - 1);
      assert ToLE(v, n)[1..] == ToLE(v / 256, n - 1);
    }
  }

  lemma {:induction false} BERoundTrip(v: nat, n: nat)
    requires v < Pow(256, n)
    ensures FromBE(ToBE(v, n)) == v
    decreases n
  {
    if n > 0 {
      BERoundTrip(v / 256, n - 1);
      assert ToBE(v, n)[..n - 1] == ToBE(v / 256, n - 1);
    }
  }

  lemma {:induction false} BEInverse(b: seq<byte>)
    ensures ToBE(FromBE(b), |b|) == b
  {
    if b != [] {
      var init := b[..|b| - 1];
      BEInverse(init);
      assert FromBE(b) / 256 == FromBE(init);
      assert b == init + [b[|b| - 1]];
    }
  }

  lemma {:induction false} FromLEConcat(a: seq<byte>, b: seq<byte>)
    ensures FromLE(a + b) == FromLE(a) + Pow(256, |a|) * FromLE(b)
  {
    if a == [] {
      assert a + b == b;
    } else {
      assert (a + b)[1..] == a[1..] + b;
      FromLEConcat(a[1..], b);
      assert 256 * (Pow(256, |a| - 1) * FromLE(b)) == Pow(256, |a|) * FromLE(b);
    }
  }

  lemma {:induction false} PowOfPow(k: nat)
    ensures Pow(256, k) == Pow(2, 8 * k)
  {
    if k > 0 {
      PowOfPow(k - 1);
      PowAdd(2, 8, 8 * (k - 1));
      assert Pow(2, 4) == 16;
      PowAdd(2, 4, 4);
    }
  }

  // ---- The two byte orders mirror each other

  lemma {:induction false} BytesMirror(v: nat, n: nat, i: nat)
    requires i < n
    ensures ToBE(v, n)[n - 1 - i] == ToLE(v, n)[i]
    decreases n
  {
    if i > 0 {
      BytesMirror(v / 256, n - 1, i - 1);
    }
  }

  lemma {:induction false} LowBytes(v: nat, n: nat, m: nat, i: nat)
    requires i < n <= m
    ensures ToLE(v, n)[i] == ToLE(v, m)[i]
    decreases n
  {
    if i > 0 {
      LowBytes(v / 256, n - 1, m - 1, i - 1);
    }
  }

  lemma {:induction false} FromLEMirror(le: seq<byte>, be: seq<byte>)
    requires |le| == |be| && forall i :: 0 <= i < |le| ==> le[i] == be[|be| - 1 - i]
    ensures FromLE(le) == FromBE(be)
  {
    if le != [] {
      FromLEMirror(le[1..], be[..|be| - 1]);
    }
  }

  lemma {:induction false} HighBytes(v: nat, m: nat, n: nat)
    requires n <= m && v < Pow(256, m)
    ensures Pow(256, n) > 0 && FromLE(ToLE(v, m)[n..]) == v / Pow(256, n)
    decreases n
  {
    if n == 0 {
      LERoundTrip(v, m);
      assert ToLE(v, m)[0..] == ToLE(v, m);
      assert Pow(256, 0) == 1;
    } else {
      HighBytes(v / 256, m - 1, n - 1);
      assert ToLE(v, m)[n..] == ToLE(v / 256, m - 1)[n - 1..];
      DivideTwice(v, 256, Pow(256, n - 1));
    }
  }

  // ---- The digits of a number

  /** Byte i of the little-endian form is digit i of the number, to the base 256. */
  lemma {:induction false} LittleEndianDigits(v: nat, n: nat, i: nat)
    requires i < n
    ensures Pow(256, i) > 0 && ToLE(v, n)[i] == v / Pow(256, i) % 256
    decreases n
  {
    if i == 0 {
      assert Pow(256, 0) == 1;
    } else {
      LittleEndianDigits(v / 256, n - 1, i - 1);
      DivideTwice(v, 256, Pow(256, i - 1));
    }
  }

  /** Byte i of the big-endian form is digit n - 1 - i. */
  lemma BigEndianDigits(v: nat, n: nat, i: nat)
    requires i < n
    ensures Pow(256, n - 1 - i) > 0 && ToBE(v, n)[i] == v / Pow(256, n - 1 - i) % 256
  {
    LittleEndianDigits(v, n, n - 1 - i);
    BytesMirror(v, n, n - 1 - i);
  }
}
