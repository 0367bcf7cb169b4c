/** The checksum of hash sets and hash maps, whose iteration order differs between platforms: element hashes are summed
    and the hash of the size is mixed in. */
module UnorderedChecksum {
  import opened Words
  import opened Modular
  import opened Mixer

  /** The wrapping sum of the hashes of the values visited, in the order of the visit. */
  function HashSum(visited: seq<u64>): u64 {
    if visited == [] then 0 else (Hash64(visited[0]) + HashSum(visited[1..])) % TWO_64
  }

  function SetChecksum(visited: seq<u64>): u64
    requires |visited| < TWO_64
  {
    Mix(Hash64(|visited|), HashSum(visited))
  }

  lemma HashSumEmpty()
    ensures HashSum([]) == 0
  {
  }

  lemma SumStep(sum: nat, a: nat, rest: nat)
    ensures ((sum + a) % TWO_64 + rest) % TWO_64 == (sum + (a + rest) % TWO_64) % TWO_64
  {
    RemainderOfSum(sum + a, rest, TWO_64);
    RemainderOfSum(a + rest, sum, TWO_64);
  }

  lemma {:induction false} HashSumConcat(a: seq<u64>, b: seq<u64>)
    ensures HashSum(a + b) == (HashSum(a) + HashSum(b)) % TWO_64
  {
    hide Hash64;
    if a == [] {
      assert a + b == b;
      RemainderIsUnique(HashSum(b), 0, HashSum(b), TWO_64);
    } else {
      assert (a + b)[1..] == a[1..] + b;
      HashSumConcat(a[1..], b);
      SumStep(Hash64(a[0]), HashSum(a[1..]), HashSum(b));
    }
  }

  lemma RemoveOne<T>(a: seq<T>, b: seq<T>, k: nat)
    requires a != [] && multiset(a) == multiset(b) && k < |b| && b[k] == a[0]
    ensures multiset(a[1..]) == multiset(b[..k] + b[k + 1..])
  {
    var before, after := b[..k], b[k + 1..];
    assert a == [a[0]] + a[1..];
    assert b == before + [b[k]] + after;
    assert multiset(a) == multiset{a[0]} + multiset(a[1..]);
    assert multiset(b) == multiset(before) + multiset{b[k]} + multiset(after);
    assert multiset(before + after) == multiset(before) + multiset(after);
    assert multiset(a[1..]) == multiset(a) - multiset{a[0]};
    assert multiset(before + after) == multiset(b) - multiset{b[k]};
  }

  lemma AddOne<T>(x: T, s: seq<T>)
    ensures multiset([x] + s) == multiset{x} + multiset(s)
  {
  }

  lemma HashSumSnoc(s: seq<u64>, x: u64)
    ensures HashSum(s + [x]) == (HashSum(s) + Hash64(x)) % TWO_64
  {
    hide Hash64;
    HashSumConcat(s, [x]);
    RemainderIsUnique(Hash64(x), 0, Hash64(x), TWO_64);
  }

  method ChecksumOfSet(visited: seq<u64>) returns (h: u64)
    requires |visited| < TWO_64
    ensures h == SetChecksum(visited)
  {
    hide Hash64, Mix, HashSum;
    var szhash := Hash64(|visited|);
    var hashSum: u64 := 0;
    HashSumEmpty();
    for i := 0 to |visited|
      invariant hashSum == HashSum(visited[..i])
    {
      HashSumSnoc(visited[..i], visited[i]);
      assert visited[..i] + [visited[i]] == visited[..i + 1];
      hashSum := (hashSum + Hash64(visited[i])) % TWO_64;
    }
    assert visited[..|visited|] == visited;
    h := Mix(szhash, hashSum);
  }

  /** The sum does not depend on the order of the visit. */
  lemma {:induction false} HashSumIgnoresOrder(a: seq<u64>, b: seq<u64>)
    requires multiset(a) == multiset(b)
    ensures HashSum(a) == HashSum(b)
    decreases |a|
  {
    hide Hash64, HashSum;
    if a == [] {
      assert |multiset(b)| == 0;
    } else {
      assert a[0] in multiset(b);
      var k :| 0 <= k < |b| && b[k] == a[0];
      var before, after := b[..k], b[k + 1..];
      RemoveOne(a, b, k);
      HashSumIgnoresOrder(a[1..], before + after);
      HashSumMoved(before, b[k], after);
      assert b == before + ([b[k]] + after);
      assert a == [a[0]] + a[1..];
      HashSumCons(a[0], a[1..]);
    }
  }

  lemma HashSumCons(x: u64, s: seq<u64>)
    ensures HashSum([x] + s) == (Hash64(x) + HashSum(s)) % TWO_64
  {
    hide Hash64;
    assert ([x] + s)[1..] == s;
  }

  lemma HashSumMoved(before: seq<u64>, x: u64, after: seq<u64>)
    ensures HashSum(before + ([x] + after)) == (Hash64(x) + HashSum(before + after)) % TWO_64
  {
    hide Hash64, HashSum;
    HashSumConcat(before, after);
    HashSumConcat(before, [x] + after);
    HashSumCons(x, after);
    Swap(HashSum(before), Hash64(x), HashSum(after));
  }

  lemma Swap(s: nat, a: nat, t: nat)
    ensures (s + (a + t) % TWO_64) % TWO_64 == (a + (s + t) % TWO_64) % TWO_64
  {
    RemainderOfSum(a + t, s, TWO_64);
    RemainderOfSum(s + t, a, TWO_64);
  }

  /** Equal sets have equal checksums, whatever the iteration order. */
  lemma SetChecksumIgnoresOrder(a: seq<u64>, b: seq<u64>)
    requires multiset(a) == multiset(b) && |a| < TWO_64
    ensures |b| == |a| && SetChecksum(a) == SetChecksum(b)
  {
    hide Hash64, Mix;
    assert |multiset(a)| == |multiset(b)|;
    HashSumIgnoresOrder(a, b);
  }

  // ---- Which sets have equal checksums

  /** The sum of the elements' hashes, not wrapped. */
  ghost function TotalHash(visited: seq<u64>): nat {
    if visited == [] then 0 else Hash64(visited[0]) + TotalHash(visited[1..])
  }

  lemma {:induction false} HashSumWraps(visited: seq<u64>)
    ensures HashSum(visited) == TotalHash(visited) % TWO_64
  {
    hide Hash64;
    if visited != [] {
      HashSumWraps(visited[1..]);
      RemainderOfSum(TotalHash(visited[1..]), Hash64(visited[0]), TWO_64);
    }
  }

  /** The two hashes and the constant before the last hashing. */
  lemma UnmixedPair(n: u64, total: nat, h: u64)
    requires h == Mix(Hash64(n), total % TWO_64)
    ensures Unhash64(h) == (0x3c0aad46f555e0b9 + Hash64(n) + total) % TWO_64
  {
    hide Hash64, Unhash64, Mix;
    MixIsHashOfSum(Hash64(n), total % TWO_64);
    RemainderOfSum(total, 0x3c0aad46f555e0b9 + Hash64(n), TWO_64);
  }

  /** The checksum of a set is the hash of the constant, the hash of the size and all elements' hashes, added up. */
  lemma SetChecksumValue(visited: seq<u64>)
    requires |visited| < TWO_64
    ensures Unhash64(SetChecksum(visited)) == (0x3c0aad46f555e0b9 + Hash64(|visited|) + TotalHash(visited)) % TWO_64
  {
    hide Hash64, Unhash64, Mix, HashSum, TotalHash;
    HashSumWraps(visited);
    UnmixedPair(|visited|, TotalHash(visited), SetChecksum(visited));
  }

  lemma UnhashSeparates(h: u64, h': u64)
    ensures Unhash64(h) == Unhash64(h') <==> h == h'
  {
    Hash64IsBijective(h);
    Hash64IsBijective(h');
  }

  lemma PairsCollideExactlyWhen(n: u64, t: nat, h: u64, n': u64, t': nat, h': u64)
    requires Unhash64(h) == (0x3c0aad46f555e0b9 + Hash64(n) + t) % TWO_64
    requires Unhash64(h') == (0x3c0aad46f555e0b9 + Hash64(n') + t') % TWO_64
    ensures h == h' <==> (Hash64(n) + t) % TWO_64 == (Hash64(n') + t') % TWO_64
    ensures n == n' ==> (h == h' <==> t % TWO_64 == t' % TWO_64)
    ensures n != n' && t % TWO_64 == t' % TWO_64 ==> h != h'
  {
    hide Hash64, Unhash64;
    UnhashSeparates(h, h');
    OffsetsAgree(0x3c0aad46f555e0b9, Hash64(n) + t, Hash64(n') + t', TWO_64);
    OffsetsAgree(Hash64(n), t, t', TWO_64);
    OffsetsAgree(Hash64(n'), t, t', TWO_64);
    OffsetsAgree(t, Hash64(n), Hash64(n'), TWO_64);
    Hash64IsInjective(n, n');
    RemainderIsUnique(Hash64(n), 0, Hash64(n), TWO_64);
    RemainderIsUnique(Hash64(n'), 0, Hash64(n'), TWO_64);
  }

  /** Sets of one size collide exactly if the sums of their elements' hashes agree modulo 2^64; sets of different sizes
      with the same sum never do. */
  lemma SetsCollideExactlyWhen(a: seq<u64>, b: seq<u64>)
    requires |a| < TWO_64 && |b| < TWO_64
    ensures SetChecksum(a) == SetChecksum(b) <==>
            (Hash64(|a|) + TotalHash(a)) % TWO_64 == (Hash64(|b|) + TotalHash(b)) % TWO_64
    ensures |a| == |b| ==>
            (SetChecksum(a) == SetChecksum(b) <==> TotalHash(a) % TWO_64 == TotalHash(b) % TWO_64)
    ensures |a| != |b| && TotalHash(a) % TWO_64 == TotalHash(b) % TWO_64 ==> SetChecksum(a) != SetChecksum(b)
  {
    hide Hash64, Unhash64, SetChecksum, TotalHash;
    SetChecksumValue(a);
    SetChecksumValue(b);
    PairsCollideExactlyWhen(|a|, TotalHash(a), SetChecksum(a), |b|, TotalHash(b), SetChecksum(b));
  }

  lemma {:induction false} TotalHashAt(before: seq<u64>, x: u64, after: seq<u64>)
    ensures TotalHash(before + [x] + after) == TotalHash(before) + Hash64(x) + TotalHash(after)
  {
    hide Hash64;
    if before == [] {
      assert ([] + [x] + after)[1..] == after;
    } else {
      TotalHashAt(before[1..], x, after);
      assert (before + [x] + after)[1..] == before[1..] + [x] + after;
    }
  }

  lemma ReplacedHashDiffers(rest: nat, x: u64, y: u64)
    requires x != y
    ensures (rest + Hash64(x)) % TWO_64 != (rest + Hash64(y)) % TWO_64
  {
    hide Hash64;
    Hash64IsInjective(x, y);
    SumIsInjective(rest, Hash64(x), Hash64(y), TWO_64);
  }

  /** Replacing one element by a different one always changes the checksum. */
  lemma OneElementReplaced(before: seq<u64>, x: u64, y: u64, after: seq<u64>)
    requires x != y && |before| + 1 + |after| < TWO_64
    ensures SetChecksum(before + [x] + after) != SetChecksum(before + [y] + after)
  {
    hide Hash64, SetChecksum;
    TotalHashAt(before, x, after);
    TotalHashAt(before, y, after);
    ReplacedHashDiffers(TotalHash(before) + TotalHash(after), x, y);
    SetsCollideExactlyWhen(before + [x] + after, before + [y] + after);
  }

  // ---- Maps: keys and values are summed alike

  function Entries(visited: seq<(u64, u64)>): (s: seq<u64>)
    ensures |s| == 2 * |visited|
  {
    if visited == [] then [] else [visited[0].0, visited[0].1] + Entries(visited[1..])
  }

  function MapChecksum(visited: seq<(u64, u64)>): u64
    requires |visited| < TWO_64
  {
    Mix(Hash64(|visited|), HashSum(Entries(visited)))
  }

  lemma {:induction false} EntriesSnoc(visited: seq<(u64, u64)>, e: (u64, u64))
    ensures Entries(visited + [e]) == Entries(visited) + [e.0] + [e.1]
  {
    if visited == [] {
      assert visited + [e] == [e];
    } else {
      EntriesSnoc(visited[1..], e);
      assert (visited + [e])[1..] == visited[1..] + [e];
    }
  }

  method ChecksumOfMap(visited: seq<(u64, u64)>) returns (h: u64)
    requires |visited| < TWO_64
    ensures h == MapChecksum(visited)
  {
    hide Hash64, Mix, HashSum;
    var szhash := Hash64(|visited|);
    var hashSum: u64 := 0;
    HashSumEmpty();
    for i := 0 to |visited|
      invariant hashSum == HashSum(Entries(visited[..i]))
    {
      var (k, v) := visited[i];
      EntriesSnoc(visited[..i], visited[i]);
      assert visited[..i] + [visited[i]] == visited[..i + 1];
      HashSumSnoc(Entries(visited[..i]), k);
      HashSumSnoc(Entries(visited[..i]) + [k], v);
      hashSum := (hashSum + Hash64(k)) % TWO_64;
      hashSum := (hashSum + Hash64(v)) % TWO_64;
    }
    assert visited[..|visited|] == visited;
    h := Mix(szhash, hashSum);
  }

  ghost function Keys(visited: seq<(u64, u64)>): seq<u64> {
    if visited == [] then [] else [visited[0].0] + Keys(visited[1..])
  }

  ghost function Values(visited: seq<(u64, u64)>): seq<u64> {
    if visited == [] then [] else [visited[0].1] + Values(visited[1..])
  }

  lemma Rearrange(a: multiset<u64>, b: multiset<u64>, keys: multiset<u64>, values: multiset<u64>)
    ensures a + (b + (keys + values)) == (a + keys) + (b + values)
  {
  }

  lemma OneEntryMore(k: u64, v: u64, entries: seq<u64>, keys: seq<u64>, values: seq<u64>)
    requires multiset(entries) == multiset(keys) + multiset(values)
    ensures multiset([k] + ([v] + entries)) == multiset([k] + keys) + multiset([v] + values)
  {
    AddOne(k, [v] + entries);
    AddOne(v, entries);
    AddOne(k, keys);
    AddOne(v, values);
    Rearrange(multiset{k}, multiset{v}, multiset(keys), multiset(values));
  }

  lemma NoEntries()
    ensures Entries([]) == [] && Keys([]) == [] && Values([]) == []
  {
  }

  lemma FirstEntry(e: (u64, u64), rest: seq<(u64, u64)>)
    ensures Entries([e] + rest) == [e.0] + ([e.1] + Entries(rest))
    ensures Keys([e] + rest) == [e.0] + Keys(rest) && Values([e] + rest) == [e.1] + Values(rest)
  {
    assert ([e] + rest)[1..] == rest;
  }

  lemma {:induction false} EntriesAreKeysAndValues(visited: seq<(u64, u64)>)
    ensures multiset(Entries(visited)) == multiset(Keys(visited)) + multiset(Values(visited))
  {
    hide Entries, Keys, Values;
    if visited == [] {
      NoEntries();
    } else {
      var e, rest := visited[0], visited[1..];
      EntriesAreKeysAndValues(rest);
      OneEntryMore(e.0, e.1, Entries(rest), Keys(rest), Values(rest));
      FirstEntry(e, rest);
      assert visited == [e] + rest;
    }
  }

  /** A map's checksum is fixed by its size and its keys and values taken together: the iteration order does not
      matter, and neither does which value belongs to which key. */
  lemma MapChecksumIgnoresPairing(a: seq<(u64, u64)>, b: seq<(u64, u64)>)
    requires |a| == |b| < TWO_64
    requires multiset(Keys(a)) + multiset(Values(a)) == multiset(Keys(b)) + multiset(Values(b))
    ensures MapChecksum(a) == MapChecksum(b)
  {
    hide Hash64, Mix;
    EntriesAreKeysAndValues(a);
    EntriesAreKeysAndValues(b);
    HashSumIgnoresOrder(Entries(a), Entries(b));
  }

  // ---- Which maps have equal checksums

  /** The sum of the hashes of all keys and values, not wrapped. */
  ghost function TotalOfMap(visited: seq<(u64, u64)>): nat {
    if visited == [] then 0 else Hash64(visited[0].0) + Hash64(visited[0].1) + TotalOfMap(visited[1..])
  }

  lemma TotalHashCons(x: u64, s: seq<u64>)
    ensures TotalHash([x] + s) == Hash64(x) + TotalHash(s)
  {
    hide Hash64;
    assert ([x] + s)[1..] == s;
  }

  lemma {:induction false} EntriesTotal(visited: seq<(u64, u64)>)
    ensures TotalHash(Entries(visited)) == TotalOfMap(visited)
  {
    hide Hash64, Entries, TotalHash;
    if visited == [] {
      NoEntries();
      assert TotalHash([]) == 0 by { TotalOfNone(); }
    } else {
      var e, rest := visited[0], visited[1..];
      EntriesTotal(rest);
      FirstEntry(e, rest);
      assert visited == [e] + rest;
      TotalHashCons(e.0, [e.1] + Entries(rest));
      TotalHashCons(e.1, Entries(rest));
    }
  }

  lemma TotalOfNone()
    ensures TotalHash([]) == 0
  {
  }

  /** The checksum of a map is the hash of the constant, the hash of the size and all hashes of keys and values, added
      up. */
  lemma MapChecksumValue(visited: seq<(u64, u64)>)
    requires |visited| < TWO_64
    ensures Unhash64(MapChecksum(visited)) == (0x3c0aad46f555e0b9 + Hash64(|visited|) + TotalOfMap(visited)) % TWO_64
  {
    hide Hash64, Unhash64, Mix, Entries, HashSum, TotalHash, TotalOfMap;
    EntriesTotal(visited);
    HashSumWraps(Entries(visited));
    UnmixedPair(|visited|, TotalOfMap(visited), MapChecksum(visited));
  }

  /** Maps of one size collide exactly if the sums of the hashes of their keys and values agree modulo 2^64; maps of
      different sizes with the same sum never do. */
  lemma MapsCollideExactlyWhen(a: seq<(u64, u64)>, b: seq<(u64, u64)>)
    requires |a| < TWO_64 && |b| < TWO_64
    ensures MapChecksum(a) == MapChecksum(b) <==>
            (Hash64(|a|) + TotalOfMap(a)) % TWO_64 == (Hash64(|b|) + TotalOfMap(b)) % TWO_64
    ensures |a| == |b| ==>
            (MapChecksum(a) == MapChecksum(b) <==> TotalOfMap(a) % TWO_64 == TotalOfMap(b) % TWO_64)
    ensures |a| != |b| && TotalOfMap(a) % TWO_64 == TotalOfMap(b) % TWO_64 ==> MapChecksum(a) != MapChecksum(b)
  {
    hide Hash64, Unhash64, MapChecksum, TotalOfMap;
    MapChecksumValue(a);
    MapChecksumValue(b);
    PairsCollideExactlyWhen(|a|, TotalOfMap(a), MapChecksum(a), |b|, TotalOfMap(b), MapChecksum(b));
  }

  lemma {:induction false} TotalOfMapAt(before: seq<(u64, u64)>, e: (u64, u64), after: seq<(u64, u64)>)
    ensures TotalOfMap(before + [e] + after) == TotalOfMap(before) + (Hash64(e.0) + Hash64(e.1)) + TotalOfMap(after)
  {
    hide Hash64;
    if before == [] {
      assert ([] + [e] + after)[1..] == after;
    } else {
      TotalOfMapAt(before[1..], e, after);
      assert (before + [e] + after)[1..] == before[1..] + [e] + after;
    }
  }

  /** Giving one key another value always changes the checksum. */
  lemma OneValueReplaced(before: seq<(u64, u64)>, k: u64, v: u64, v': u64, after: seq<(u64, u64)>)
    requires v != v' && |before| + 1 + |after| < TWO_64
    ensures MapChecksum(before + [(k, v)] + after) != MapChecksum(before + [(k, v')] + after)
  {
    hide Hash64, MapChecksum;
    TotalOfMapAt(before, (k, v), after);
    TotalOfMapAt(before, (k, v'), after);
    ReplacedHashDiffers(TotalOfMap(before) + Hash64(k) + TotalOfMap(after), v, v');
    MapsCollideExactlyWhen(before + [(k, v)] + after, before + [(k, v')] + after);
  }
}
