/** Searching a range: a sorted array of disjoint intervals, by bisection and by a reverse linear scan. */
module RangeSearch {
  import opened Words

  datatype SubRange = SubRange(low: u64, count: u64)

  datatype Key = Key(low: u64, high: u64)

  /** The largest value of an interval; the sum wraps at 64 bits. */
  function High(sub: SubRange): u64 {
    (sub.low + sub.count + TWO_64 - 1) % TWO_64
  }

  /** 0 if the key overlaps the interval, -1 if it lies below it, 1 if it lies above it. */
  function Compare(key: Key, sub: SubRange): int {
    if key.high < sub.low then -1 else if High(sub) < key.low then 1 else 0
  }

  /** The encoding of results: an index that was found, or the place to insert at. */
  function FindToInsert(i: int): int {
    -i - 1
  }

  function InsertToFind(i: int): int {
    -(i + 1)
  }

  lemma EncodingRoundTrip(i: int)
    ensures InsertToFind(FindToInsert(i)) == i && FindToInsert(InsertToFind(i)) == i
    ensures i >= 0 <==> FindToInsert(i) < 0
  {
  }

  predicate NonEmpty(sub: SubRange) {
    0 < sub.count && sub.low + sub.count <= TWO_64
  }

  /** What the range's other operations maintain. */
  predicate Sorted(subs: seq<SubRange>) {
    && (forall i :: 0 <= i < |subs| ==> NonEmpty(subs[i]))
    && forall i, j :: 0 <= i < j < |subs| ==> High(subs[i]) < subs[j].low
  }

  /** Where a key that overlaps nothing belongs: above everything before, below everything from there on. */
  predicate InsertionPoint(subs: seq<SubRange>, key: Key, at: nat) {
    && at <= |subs|
    && (forall i :: 0 <= i < at ==> Compare(key, subs[i]) == 1)
    && (forall i :: at <= i < |subs| ==> Compare(key, subs[i]) == -1)
  }

  lemma InsertionPointIsUnique(subs: seq<SubRange>, key: Key, a: nat, b: nat)
    requires InsertionPoint(subs, key, a) && InsertionPoint(subs, key, b)
    ensures a == b
  {
    var i := if a < b then a else b;
    var c := if i < |subs| then Compare(key, subs[i]) else 0;
  }

  /** Inserting the key's interval there keeps the range sorted and disjoint. */
  lemma InsertionKeepsSorted(subs: seq<SubRange>, key: Key, at: nat)
    requires Sorted(subs) && key.low <= key.high && key.high - key.low + 1 < TWO_64
    requires InsertionPoint(subs, key, at)
    ensures Sorted(subs[..at] + [SubRange(key.low, key.high - key.low + 1)] + subs[at..])
  {
    var added := SubRange(key.low, key.high - key.low + 1);
    assert High(added) == key.high && NonEmpty(added);
    var r := subs[..at] + [added] + subs[at..];
    forall i, j | 0 <= i < j < |r| ensures High(r[i]) < r[j].low {
      if i < at && j == at {
        assert Compare(key, subs[i]) == 1;
      } else if i == at {
        assert Compare(key, subs[j - 1]) == -1;
      }
    }
  }

  /** Along a sorted range the comparison falls from 1 through 0 to -1. */
  lemma CompareIsMonotone(subs: seq<SubRange>, key: Key, i: nat, j: nat)
    requires Sorted(subs) && i < j < |subs|
    ensures Compare(key, subs[i]) == -1 ==> Compare(key, subs[j]) == -1
    ensures Compare(key, subs[j]) == 1 ==> Compare(key, subs[i]) == 1
  {
    assert NonEmpty(subs[i]) && NonEmpty(subs[j]);
    assert High(subs[i]) < subs[j].low <= High(subs[j]);
    assert subs[i].low <= High(subs[i]);
  }

  // ---- What the comparison means

  predicate InKey(x: int, key: Key) {
    key.low <= x <= key.high
  }

  predicate InSub(x: int, sub: SubRange) {
    sub.low <= x < sub.low + sub.count
  }

  /** The key and the interval have a value in common. */
  ghost predicate Overlaps(key: Key, sub: SubRange) {
    exists x: int :: InKey(x, key) && InSub(x, sub)
  }

  /** Every value of the key is below every value of the interval. */
  ghost predicate IsBelow(key: Key, sub: SubRange) {
    forall x: int, y: int :: InKey(x, key) && InSub(y, sub) ==> x < y
  }

  ghost predicate IsAbove(key: Key, sub: SubRange) {
    forall x: int, y: int :: InKey(x, key) && InSub(y, sub) ==> x > y
  }

  /** For a key and an interval that are not empty the comparison is 0 exactly if they have a value in common, -1 exactly
      if the key is below and 1 exactly if it is above. */
  lemma CompareMeans(key: Key, sub: SubRange)
    requires key.low <= key.high && NonEmpty(sub)
    ensures Compare(key, sub) == 0 <==> Overlaps(key, sub)
    ensures Compare(key, sub) == -1 <==> IsBelow(key, sub)
    ensures Compare(key, sub) == 1 <==> IsAbove(key, sub)
  {
    var last := sub.low + sub.count - 1;
    assert High(sub) == last;
    assert InKey(key.low, key) && InKey(key.high, key) && InSub(sub.low, sub) && InSub(last, sub);
    if Compare(key, sub) == 0 {
      var x := if key.low >= sub.low then key.low else sub.low;
      assert InKey(x, key) && InSub(x, sub);
    }
  }

  /** The result of a search by values: an interval that has one in common with the key, or, with the insertion place at
      as -at - 1, a place that has all intervals before it below the key and all others above it. */
  ghost predicate FindsValues(subs: seq<SubRange>, key: Key, result: int) {
    if result >= 0 then
      result < |subs| && Overlaps(key, subs[result])
    else
      var at := -result - 1;
      && at <= |subs|
      && (forall i :: 0 <= i < at ==> IsAbove(key, subs[i]))
      && (forall i :: at <= i < |subs| ==> IsBelow(key, subs[i]))
  }

  lemma AnswersFindValues(subs: seq<SubRange>, key: Key, result: int)
    requires Sorted(subs) && key.low <= key.high && Answers(subs, key, result)
    ensures FindsValues(subs, key, result)
    ensures result >= 0 <==> exists i :: 0 <= i < |subs| && Overlaps(key, subs[i])
  {
    hide Compare, High, Overlaps, IsBelow, IsAbove;
    forall i | 0 <= i < |subs|
      ensures Compare(key, subs[i]) == 0 <==> Overlaps(key, subs[i])
      ensures Compare(key, subs[i]) == -1 <==> IsBelow(key, subs[i])
      ensures Compare(key, subs[i]) == 1 <==> IsAbove(key, subs[i])
    {
      CompareMeans(key, subs[i]);
    }
    AnswersAgree(subs, key, result, result);
  }

  lemma AllAnswersFindValues(subs: seq<SubRange>, key: Key)
    requires Sorted(subs)
    ensures forall result :: key.low <= key.high && Answers(subs, key, result) ==> FindsValues(subs, key, result)
  {
    forall result | key.low <= key.high && Answers(subs, key, result) ensures FindsValues(subs, key, result) {
      AnswersFindValues(subs, key, result);
    }
  }

  /** The right answer to a search: some interval that overlaps the key, or the insertion point if none does. */
  predicate Answers(subs: seq<SubRange>, key: Key, result: int) {
    if result >= 0 then
      result < |subs| && Compare(key, subs[result]) == 0
    else
      InsertionPoint(subs, key, InsertToFind(result))
  }

  /** An answer finds an interval exactly when one overlaps the key, and all answers that do not are the same. */
  lemma AnswersAgree(subs: seq<SubRange>, key: Key, r: int, r': int)
    requires Answers(subs, key, r) && Answers(subs, key, r')
    ensures r >= 0 <==> exists i :: 0 <= i < |subs| && Compare(key, subs[i]) == 0
    ensures r < 0 ==> r == r'
  {
    if r < 0 {
      forall i | 0 <= i < |subs| ensures Compare(key, subs[i]) != 0 {
      }
      if r' < 0 {
        InsertionPointIsUnique(subs, key, InsertToFind(r), InsertToFind(r'));
      }
    }
  }

  lemma OutsideBelow(subs: seq<SubRange>, key: Key, mid: nat)
    requires Sorted(subs) && mid < |subs| && Compare(key, subs[mid]) == -1
    ensures forall i :: mid <= i < |subs| ==> Compare(key, subs[i]) == -1
  {
    forall i | mid < i < |subs| ensures Compare(key, subs[i]) == -1 {
      CompareIsMonotone(subs, key, mid, i);
    }
  }

  lemma OutsideAbove(subs: seq<SubRange>, key: Key, mid: nat)
    requires Sorted(subs) && mid < |subs| && Compare(key, subs[mid]) == 1
    ensures forall i :: 0 <= i <= mid ==> Compare(key, subs[i]) == 1
  {
    forall i | 0 <= i < mid ensures Compare(key, subs[i]) == 1 {
      CompareIsMonotone(subs, key, i, mid);
    }
  }

  /** The bisection. Hi is unsigned: it starts at 2^32 - 1 for an empty range and wraps there again when the key lies
      below the first interval; it is Num, the length of the part left, that keeps the indices in bounds. */
  method BinarySearch(subs: array<SubRange>, usedLength: u32, key: Key) returns (result: int)
    requires usedLength <= subs.Length && usedLength < 0x8000_0000
    requires Sorted(subs[..usedLength])
    ensures Answers(subs[..usedLength], key, result)
    ensures key.low <= key.high ==> FindsValues(subs[..usedLength], key, result)
  {
    hide Compare, Sorted, FindsValues;
    ghost var s := subs[..usedLength];
    AllAnswersFindValues(s, key);
    var num: u32 := usedLength;
    var lo: u32 := 0;
    var hi: u32 := (usedLength + TWO_32 - 1) % TWO_32;
    var mid: u32 := 0;
    var r := 0;
    while lo <= hi
      invariant lo + num <= usedLength
      invariant hi == (lo + num + TWO_32 - 1) % TWO_32
      invariant forall i :: 0 <= i < lo ==> Compare(key, s[i]) == 1
      invariant forall i :: lo + num <= i < usedLength ==> Compare(key, s[i]) == -1
      invariant num == 0 ==> mid == lo && r <= 0
      decreases num
    {
      var half := num / 2;
      if half != 0 {
        mid := lo + (if num % 2 == 1 then half else half - 1);
        r := Compare(key, subs[mid]);
        assert subs[mid] == s[mid];
        CompareValues(key, s[mid]);
        if r == 0 {
          return mid;
        } else if r < 0 {
          OutsideBelow(s, key, mid);
          hi := (mid + TWO_32 - 1) % TWO_32;
          num := if num % 2 == 1 then half else half - 1;
        } else {
          OutsideAbove(s, key, mid);
          lo := mid + 1;
          num := half;
        }
      } else if num != 0 {
        r := Compare(key, subs[lo]);
        assert subs[lo] == s[lo];
        CompareValues(key, s[lo]);
        if r == 0 {
          return lo;
        } else if r < 0 {
          OutsideBelow(s, key, lo);
          return FindToInsert(lo);
        } else {
          OutsideAbove(s, key, lo);
          return FindToInsert(lo + 1);
        }
      } else {
        break;
      }
    }
    result := if r > 0 then FindToInsert(mid + 1) else FindToInsert(mid);
  }

  lemma CompareValues(key: Key, sub: SubRange)
    ensures -1 <= Compare(key, sub) <= 1
  {
  }

  /** The reverse linear scan finds the last interval that overlaps the key. */
  method LinearSearch(subs: array<SubRange>, usedLength: u32, key: Key) returns (result: int)
    requires usedLength <= subs.Length && usedLength < 0x8000_0000
    requires Sorted(subs[..usedLength])
    ensures Answers(subs[..usedLength], key, result)
    ensures key.low <= key.high ==> FindsValues(subs[..usedLength], key, result)
    ensures result >= 0 ==> forall i :: result < i < usedLength ==> Compare(key, subs[i]) == -1
  {
    hide Compare, Sorted, FindsValues;
    ghost var s := subs[..usedLength];
    AllAnswersFindValues(s, key);
    var i: u32 := usedLength;
    while i > 0
      invariant i <= usedLength
      invariant forall j :: i <= j < usedLength ==> Compare(key, s[j]) == -1
    {
      var r := Compare(key, subs[i - 1]);
      assert subs[i - 1] == s[i - 1];
      CompareValues(key, s[i - 1]);
      if r == 0 {
        return i - 1;
      } else if r > 0 {
        OutsideAbove(s, key, i - 1);
        break;
      }
      i := i - 1;
    }
    result := FindToInsert(i);
  }
}
