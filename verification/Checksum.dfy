/** The checksum of integer ranges. A range of integers is packed, eight bytes at a time
    and lowest element first, into words that are mixed in order; the element count is mixed in last. */
module Checksum {
  import opened Words
  import opened Modular
  import opened Bits
  import opened Bytes
  import opened Mixer
  import opened ChunkView

  // ---- Elements

  /** An integer type of the program: its size in bytes and whether it is signed. */
  datatype IntType = IntType(width: nat, signed: bool) {
    predicate Valid() {
      width == 1 || width == 2 || width == 4 || width == 8
    }

    predicate Holds(t: int) {
      if signed then 0 - Pow(256, width) <= 2 * t < Pow(256, width) else 0 <= t < Pow(256, width)
    }

    /** How many elements make up eight bytes. */
    function PerWord(): (n: nat)
      requires Valid()
      ensures n > 0 && n * width == 8
    {
      8 / width
    }
  }

  lemma WidthsFit(ty: IntType)
    requires ty.Valid()
    ensures 0 < Pow(256, ty.width) <= TWO_64
  {
    assert Pow(256, 1) == 256;
    PowAdd(256, 1, 1);
    PowAdd(256, 2, 2);
    PowAdd(256, 4, 4);
  }

  /** ToU64WithoutSignExtension: a negative value keeps only the bits of its own type. */
  function ToU64(ty: IntType, t: int): (u: u64)
    requires ty.Valid()
    ensures 0 < Pow(256, ty.width) && u < Pow(256, ty.width)
  {
    WidthsFit(ty);
    t % Pow(256, ty.width)
  }

  lemma ToU64IsInjective(ty: IntType, s: int, t: int)
    requires ty.Valid() && ty.Holds(s) && ty.Holds(t)
    ensures ToU64(ty, s) == ToU64(ty, t) <==> s == t
  {
    var m := Pow(256, ty.width);
    WidthsFit(ty);
    SameRemainder(s, t, m);
    if s > t {
      RemainderIsUnique(s - t, 0, s - t, m);
    } else if s < t {
      RemainderIsUnique(s - t, -1, s - t + m, m);
    }
  }

  /** What it keeps is the two's-complement value: the element itself, or for a negative one 2^8, 2^16, 2^32 or 2^64
      more. */
  lemma ToU64IsTwosComplement(ty: IntType, t: int)
    requires ty.Valid() && ty.Holds(t)
    ensures ToU64(ty, t) == if t >= 0 then t else t + Pow(256, ty.width)
    ensures ty.width == 1 ==> Pow(256, ty.width) == 0x100
    ensures ty.width == 2 ==> Pow(256, ty.width) == 0x1_0000
    ensures ty.width == 4 ==> Pow(256, ty.width) == 0x1_0000_0000
    ensures ty.width == 8 ==> Pow(256, ty.width) == 0x1_0000_0000_0000_0000
  {
    var m := Pow(256, ty.width);
    WidthsFit(ty);
    if t >= 0 {
      RemainderIsUnique(t, 0, t, m);
    } else {
      RemainderIsUnique(t, -1, t + m, m);
    }
    assert Pow(256, 1) == 256;
    PowAdd(256, 1, 1);
    PowAdd(256, 2, 2);
    PowAdd(256, 4, 4);
  }

  // ---- Packing eight bytes into a word

  /** The elements of one chunk as a number, lowest element first. */
  function Packed(ty: IntType, block: seq<int>): nat
    requires ty.Valid()
  {
    if block == [] then 0 else ToU64(ty, block[0]) + Pow(256, ty.width) * Packed(ty, block[1..])
  }

  lemma {:induction false} PackedSnoc(ty: IntType, block: seq<int>, t: int)
    requires ty.Valid()
    ensures Packed(ty, block + [t]) == Packed(ty, block) + ToU64(ty, t) * Pow(256, ty.width * |block|)
  {
    hide ToU64;
    if block == [] {
      assert ([t] + [])[1..] == [];
      assert block + [t] == [t];
      assert Pow(256, 0) == 1;
    } else {
      var rest := block[1..];
      assert (block + [t])[0] == block[0] && (block + [t])[1..] == rest + [t];
      PackedSnoc(ty, rest, t);
      PowAdd(256, ty.width, ty.width * |rest|);
      assert ty.width * |block| == ty.width + ty.width * |rest|;
      Scale(Pow(256, ty.width), Packed(ty, rest), ToU64(ty, t), Pow(256, ty.width * |rest|));
    }
  }

  lemma Scale(p: int, x: int, u: int, q: int)
    ensures p * (x + u * q) == p * x + u * (p * q)
  {
    assert p * (u * q) == u * (p * q);
  }

  lemma {:induction false} PackedBound(ty: IntType, block: seq<int>)
    requires ty.Valid()
    ensures Packed(ty, block) < Pow(256, ty.width * |block|)
  {
    if block == [] {
      assert ty.width * 0 == 0;
    } else {
      PackedBound(ty, block[1..]);
      PowAdd(256, ty.width, ty.width * |block[1..]|);
      assert ty.width * |block| == ty.width + ty.width * |block[1..]|;
      DigitBound(ToU64(ty, block[0]), Packed(ty, block[1..]), Pow(256, ty.width), Pow(256, ty.width * |block[1..]|));
    }
  }

  lemma ChunkBytes(ty: IntType, k: nat)
    requires ty.Valid() && k <= ty.PerWord()
    ensures ty.width * k <= 8
  {
    assert ty.width * (ty.PerWord() - k) >= 0;
    assert ty.width * (ty.PerWord() - k) == ty.PerWord() * ty.width - ty.width * k;
  }

  lemma PackedFits(ty: IntType, block: seq<int>)
    requires ty.Valid() && |block| <= ty.PerWord()
    ensures Packed(ty, block) < Pow(256, ty.width * |block|) <= TWO_64
  {
    hide Packed, Pow;
    PackedBound(ty, block);
    ChunkBytes(ty, |block|);
    PowMonotone(256, ty.width * |block|, 8);
    WidthsFit(IntType(8, false));
  }

  lemma PackedSplits(ty: IntType, a: seq<int>)
    requires ty.Valid() && a != []
    ensures Pow(256, ty.width) > 0
    ensures Packed(ty, a) % Pow(256, ty.width) == ToU64(ty, a[0])
    ensures Packed(ty, a) / Pow(256, ty.width) == Packed(ty, a[1..])
  {
    hide Pow;
    WidthsFit(ty);
    var m, u, rest := Pow(256, ty.width), ToU64(ty, a[0]), Packed(ty, a[1..]);
    assert Packed(ty, a) == rest * m + u;
    RemainderIsUnique(Packed(ty, a), rest, u, m);
  }

  /** Packing loses nothing: two chunks of the same length with the same word hold the same elements. */
  lemma {:induction false} PackedIsInjective(ty: IntType, a: seq<int>, b: seq<int>)
    requires ty.Valid() && |a| == |b|
    requires forall i :: 0 <= i < |a| ==> ty.Holds(a[i]) && ty.Holds(b[i])
    requires Packed(ty, a) == Packed(ty, b)
    ensures a == b
  {
    hide Packed, ToU64, Pow;
    if a != [] {
      PackedSplits(ty, a);
      PackedSplits(ty, b);
      ToU64IsInjective(ty, a[0], b[0]);
      PackedIsInjective(ty, a[1..], b[1..]);
      assert a == [a[0]] + a[1..] && b == [b[0]] + b[1..];
    }
  }

  /** sum1 |= element << (8 * width * index), for the next index of a chunk. */
  function Merge(ty: IntType, sum1: u64, t: int, index: nat): nat
    requires ty.Valid()
  {
    Or(sum1, ToU64(ty, t) * Pow(256, ty.width * index) % TWO_64)
  }

  lemma MergePacks(ty: IntType, block: seq<int>, t: int)
    requires ty.Valid() && |block| < ty.PerWord()
    ensures Packed(ty, block) < TWO_64
    ensures Merge(ty, Packed(ty, block), t, |block|) == Packed(ty, block + [t]) < TWO_64
  {
    hide Packed, Pow, Or, ToU64;
    PackedFits(ty, block);
    PackedFits(ty, block + [t]);
    PackedSnoc(ty, block, t);
    PackedBound(ty, block);
    var shifted := ToU64(ty, t) * Pow(256, ty.width * |block|);
    RemainderIsUnique(shifted, 0, shifted, TWO_64);
    PowOfPow(ty.width * |block|);
    OrDisjoint(Packed(ty, block), ToU64(ty, t), 8 * (ty.width * |block|));
  }

  // ---- The range hash

  /** The words of a range: one for each chunk of eight bytes. */
  function WordsOf(ty: IntType, chunks: seq<seq<int>>): (ws: seq<u64>)
    requires ty.Valid() && forall i :: 0 <= i < |chunks| ==> |chunks[i]| <= ty.PerWord()
    ensures |ws| == |chunks| && forall i :: 0 <= i < |ws| ==> ws[i] == Packed(ty, chunks[i])
  {
    if chunks == [] then [] else
      PackedFits(ty, chunks[0]);
      [Packed(ty, chunks[0])] + WordsOf(ty, chunks[1..])
  }

  function RangeWords(ty: IntType, elements: seq<int>): (ws: seq<u64>)
    requires ty.Valid()
    ensures var chunks := Chunks(elements, ty.PerWord());
            |ws| == |chunks| && forall i :: 0 <= i < |ws| ==> ws[i] == Packed(ty, chunks[i])
  {
    ChunkLengths(elements, ty.PerWord());
    WordsOf(ty, Chunks(elements, ty.PerWord()))
  }

  lemma ChunkLengths(s: seq<int>, count: nat)
    requires count > 0
    ensures forall i :: 0 <= i < |Chunks(s, count)| ==> |Chunks(s, count)[i]| <= count
  {
    ChunksPartition(s, count);
  }

  function MixAll(h: u64, words: seq<u64>): u64
    decreases |words|
  {
    if words == [] then h else MixAll(Mix(h, words[0]), words[1..])
  }

  /** The checksum of a range of integers. */
  function RangeHash(ty: IntType, elements: seq<int>): u64
    requires ty.Valid() && |elements| < TWO_64
  {
    Mix(MixAll(0, RangeWords(ty, elements)), |elements|)
  }

  // ---- The three loops that compute it

  /** A non-empty chunk at the front contributes the first word. */
  lemma RangeWordsFrom(ty: IntType, elements: seq<int>, start: nat)
    requires ty.Valid() && start < |elements|
    ensures var end := Min(start + ty.PerWord(), |elements|);
            && Packed(ty, elements[start..end]) < TWO_64
            && RangeWords(ty, elements[start..]) == [Packed(ty, elements[start..end])] + RangeWords(ty, elements[end..])
  {
    var end := Min(start + ty.PerWord(), |elements|);
    ChunksFrom(elements, start, ty.PerWord());
    PackedFits(ty, elements[start..end]);
  }

  lemma MixAllStep(h: u64, w: u64, rest: seq<u64>)
    ensures MixAll(h, [w] + rest) == MixAll(Mix(h, w), rest)
  {
    assert ([w] + rest)[1..] == rest;
  }

  lemma MixAllEmpty(h: u64)
    ensures MixAll(h, []) == h
  {
  }

  /** What is left to do when the loops stand at an element: mix the words of the rest into the sum so far. */
  ghost predicate Remaining(ty: IntType, hashSum: u64, elements: seq<int>, start: nat)
    requires ty.Valid()
  {
    start <= |elements| &&
    MixAll(hashSum, RangeWords(ty, elements[start..])) == MixAll(0, RangeWords(ty, elements))
  }

  lemma RemainingAtBegin(ty: IntType, elements: seq<int>)
    requires ty.Valid()
    ensures Remaining(ty, 0, elements, 0)
  {
    assert elements[0..] == elements;
  }

  lemma RemainingAfterChunk(ty: IntType, hashSum: u64, elements: seq<int>, start: nat, end: nat)
    requires ty.Valid() && start < |elements| && end == Min(start + ty.PerWord(), |elements|)
    requires Remaining(ty, hashSum, elements, start)
    ensures Packed(ty, elements[start..end]) < TWO_64
    ensures Remaining(ty, Mix(hashSum, Packed(ty, elements[start..end])), elements, end)
  {
    hide MixAll, Mix, Packed;
    RangeWordsFrom(ty, elements, start);
    MixAllStep(hashSum, Packed(ty, elements[start..end]), RangeWords(ty, elements[end..]));
  }

  lemma RemainingAtEnd(ty: IntType, hashSum: u64, elements: seq<int>)
    requires ty.Valid() && Remaining(ty, hashSum, elements, |elements|)
    ensures hashSum == MixAll(0, RangeWords(ty, elements))
  {
    assert elements[|elements|..] == [];
    MixAllEmpty(hashSum);
  }

  /** The hash over the chunking view, for ranges of unknown size. */
  method HashIntRange(ty: IntType, elements: seq<int>) returns (h: u64)
    requires ty.Valid() && |elements| < TWO_64
    ensures h == RangeHash(ty, elements)
  {
    hide Remaining, Packed, Mix;
    var hashSum, count := 0, 0;
    var view := new View<int>(elements, ty.PerWord());
    view.Begin();
    RemainingAtBegin(ty, elements);
    while !view.OuterAtEnd()
      invariant view.Valid() && view.range == elements && view.count == ty.PerWord() && fresh(view)
      invariant count == view.start == view.current
      invariant Remaining(ty, hashSum, elements, view.start)
      decreases |elements| - view.start
    {
      RemainingAfterChunk(ty, hashSum, elements, view.start, view.start + |view.Chunk()|);
      var sum1, read := PackChunk(ty, view);
      view.AdvanceOuter();
      hashSum := Mix(hashSum, sum1);
      count := count + read;
    }
    RemainingAtEnd(ty, hashSum, elements);
    h := Mix(hashSum, count);
  }

  /** The inner loop of HashIntRange: one chunk of the view, merged into a word. */
  method PackChunk(ty: IntType, view: View<int>) returns (sum1: u64, idx: nat)
    requires ty.Valid() && view.count == ty.PerWord()
    requires view.Valid() && view.current == view.start < |view.range|
    modifies view
    ensures view.Valid() && view.start == old(view.start)
    ensures sum1 == Packed(ty, view.Chunk()) && idx == |view.Chunk()|
  {
    hide Packed;
    ghost var chunk, begin := view.Chunk(), view.start;
    sum1, idx := 0, 0;
    assert Packed(ty, []) == 0 by { PackedEmpty(ty); }
    while !view.InnerAtEnd()
      invariant view.Valid() && view.start == begin && view.current == begin + idx
      invariant idx <= |chunk| && sum1 == Packed(ty, chunk[..idx])
      decreases |chunk| - idx
    {
      MergePacks(ty, chunk[..idx], view.Element());
      assert chunk[..idx] + [chunk[idx]] == chunk[..idx + 1];
      sum1 := Merge(ty, sum1, view.Element(), idx);
      view.AdvanceInner();
      idx := idx + 1;
    }
    assert chunk[..idx] == chunk;
  }

  lemma PackedEmpty(ty: IntType)
    requires ty.Valid()
    ensures Packed(ty, []) == 0
  {
  }

  /** Merging n elements from a position on into a word: the fall-back copy and the loop over the last elements. */
  method PackElements(ty: IntType, elements: seq<int>, now: nat, n: nat) returns (sum1: u64)
    requires ty.Valid() && n <= ty.PerWord() && now + n <= |elements|
    ensures sum1 == Packed(ty, elements[now..now + n])
  {
    hide Packed;
    sum1 := 0;
    PackedEmpty(ty);
    assert elements[now..now] == [];
    for i := 0 to n
      invariant sum1 == Packed(ty, elements[now..now + i])
    {
      MergePacks(ty, elements[now..now + i], elements[now + i]);
      assert elements[now..now + i] + [elements[now + i]] == elements[now..now + i + 1];
      sum1 := Merge(ty, sum1, elements[now + i], i);
    }
  }

  /** The number of elements in whole words; the count is first truncated to 32 bits. */
  function WholeWords(count: nat, perWord: nat): (chunks: u32)
    requires perWord > 0
  {
    count % TWO_32 - count % TWO_32 % perWord
  }

  /** Ranges shorter than 2^32 leave fewer elements than a word for the last loop. From 2^32 on more are left than its
      32-bit index can count, so it would never end. */
  lemma WholeWordsCover(count: nat, perWord: nat)
    requires 0 < perWord <= 8
    ensures count < TWO_32 <==> 0 <= count - WholeWords(count, perWord) < perWord
    ensures count >= TWO_32 ==> count - WholeWords(count, perWord) >= TWO_32
  {
  }

  lemma WholeWordsStep(count: nat, perWord: nat, ck: nat)
    requires perWord > 0 && ck % perWord == 0 && ck < WholeWords(count, perWord)
    ensures (ck + perWord) % perWord == 0 && ck + perWord <= WholeWords(count, perWord)
  {
    var n, p := count % TWO_32, perWord;
    RemainderIsUnique(ck + p, ck / p + 1, 0, p);
    var d := n / p - ck / p;
    assert WholeWords(count, p) - ck == d * p;
    ProductBound(d, p);
    assert d >= 1;
    ProductBound(d - 1, p);
    assert (d - 1) * p == d * p - p;
  }

  /** The hash of a sized range, element by element. */
  method HashIntSizedRange(ty: IntType, elements: seq<int>) returns (h: u64)
    requires ty.Valid() && |elements| < TWO_32
    ensures h == RangeHash(ty, elements)
  {
    hide Remaining, Packed, Mix;
    var perWord, count := ty.PerWord(), |elements|;
    var chunks := WholeWords(count, perWord);
    WholeWordsCover(count, perWord);
    var hashSum, ck := 0, 0;
    RemainingAtBegin(ty, elements);
    while ck < chunks
      invariant ck <= chunks && ck % perWord == 0
      invariant Remaining(ty, hashSum, elements, ck)
    {
      WholeWordsStep(count, perWord, ck);
      RemainingAfterChunk(ty, hashSum, elements, ck, ck + perWord);
      var sum1 := PackElements(ty, elements, ck, perWord);
      hashSum := Mix(hashSum, sum1);
      ck := ck + perWord;
    }
    if chunks != count {
      RemainingAfterChunk(ty, hashSum, elements, ck, count);
      var sum1 := PackElements(ty, elements, ck, count - chunks);
      hashSum := Mix(hashSum, sum1);
    }
    RemainingAtEnd(ty, hashSum, elements);
    h := Mix(hashSum, count);
  }

  // ---- The little-endian copy

  /** The object representation of contiguous elements on a little-endian machine. */
  function Memory(ty: IntType, elements: seq<int>): (m: seq<byte>)
    requires ty.Valid()
    ensures |m| == ty.width * |elements|
  {
    if elements == [] then [] else
      assert ty.width * |elements| == ty.width + ty.width * |elements[1..]|;
      ToLE(ToU64(ty, elements[0]), ty.width) + Memory(ty, elements[1..])
  }

  lemma {:induction false} MemoryConcat(ty: IntType, a: seq<int>, b: seq<int>)
    requires ty.Valid()
    ensures Memory(ty, a + b) == Memory(ty, a) + Memory(ty, b)
  {
    if a == [] {
      assert a + b == b;
    } else {
      assert (a + b)[1..] == a[1..] + b;
      MemoryConcat(ty, a[1..], b);
    }
  }

  lemma MemoryCons(ty: IntType, t: int, rest: seq<int>)
    requires ty.Valid()
    ensures Memory(ty, [t] + rest) == ToLE(ToU64(ty, t), ty.width) + Memory(ty, rest)
  {
    hide ToU64, ToLE;
    assert ([t] + rest)[1..] == rest;
  }

  lemma InTheMiddle<T>(a: seq<T>, b: seq<T>, c: seq<T>, j: nat)
    requires j < |b|
    ensures |a| + j < |a + (b + c)| && (a + (b + c))[|a| + j] == b[j]
  {
  }

  /** Byte j of element i is that digit of the element's two's-complement value. */
  lemma MemoryIsTwosComplement(ty: IntType, elements: seq<int>, i: nat, j: nat)
    requires ty.Valid() && i < |elements| && ty.Holds(elements[i]) && j < ty.width
    ensures ty.width * i + j < |Memory(ty, elements)| && Pow(256, j) > 0
    ensures var t := elements[i];
            Memory(ty, elements)[ty.width * i + j]
            == (if t >= 0 then t else t + Pow(256, ty.width)) / Pow(256, j) % 256
  {
    hide ToU64, Memory, ToLE;
    var before, after := elements[..i], elements[i + 1..];
    var bytes := ToLE(ToU64(ty, elements[i]), ty.width);
    assert elements == before + ([elements[i]] + after);
    MemoryConcat(ty, before, [elements[i]] + after);
    MemoryCons(ty, elements[i], after);
    InTheMiddle(Memory(ty, before), bytes, Memory(ty, after), j);
    LittleEndianDigits(ToU64(ty, elements[i]), ty.width, j);
    ToU64IsTwosComplement(ty, elements[i]);
  }

  lemma {:induction false} MemoryIsPacked(ty: IntType, block: seq<int>)
    requires ty.Valid()
    ensures FromLE(Memory(ty, block)) == Packed(ty, block)
  {
    if block != [] {
      var first := ToLE(ToU64(ty, block[0]), ty.width);
      MemoryIsPacked(ty, block[1..]);
      FromLEConcat(first, Memory(ty, block[1..]));
      LERoundTrip(ToU64(ty, block[0]), ty.width);
    }
  }

  /** The eight bytes at a word boundary of the elements are that chunk's bytes. */
  lemma WordInMemory(ty: IntType, elements: seq<int>, ck: nat)
    requires ty.Valid() && ck + ty.PerWord() <= |elements|
    ensures ty.width * ck + 8 <= |Memory(ty, elements)|
    ensures FromLE(Memory(ty, elements)[ty.width * ck..ty.width * ck + 8])
         == Packed(ty, elements[ck..ck + ty.PerWord()])
  {
    hide Memory, FromLE, Packed;
    var end := ck + ty.PerWord();
    var before, block, after := elements[..ck], elements[ck..end], elements[end..];
    MemoryConcat(ty, before, block);
    MemoryConcat(ty, before + block, after);
    assert before + block + after == elements;
    assert Memory(ty, elements) == Memory(ty, before) + Memory(ty, block) + Memory(ty, after);
    MemoryIsPacked(ty, block);
  }

  /** The hash of a sized contiguous range, eight bytes of memory at a time. */
  method HashIntContiguousRange(ty: IntType, elements: seq<int>, memory: seq<byte>) returns (h: u64)
    requires ty.Valid() && |elements| < TWO_32
    requires memory == Memory(ty, elements)
    ensures h == RangeHash(ty, elements)
  {
    hide Remaining, Packed, Mix, Memory, FromLE;
    var perWord, count := ty.PerWord(), |elements|;
    var chunks := WholeWords(count, perWord);
    WholeWordsCover(count, perWord);
    var hashSum, ck := 0, 0;
    RemainingAtBegin(ty, elements);
    while ck < chunks
      invariant ck <= chunks && ck % perWord == 0
      invariant Remaining(ty, hashSum, elements, ck)
    {
      WholeWordsStep(count, perWord, ck);
      RemainingAfterChunk(ty, hashSum, elements, ck, ck + perWord);
      WordInMemory(ty, elements, ck);
      var sum1 := FromLE(memory[ty.width * ck..ty.width * ck + 8]);
      hashSum := Mix(hashSum, sum1);
      ck := ck + perWord;
    }
    if chunks != count {
      RemainingAfterChunk(ty, hashSum, elements, ck, count);
      var sum1 := PackElements(ty, elements, ck, count - chunks);
      hashSum := Mix(hashSum, sum1);
    }
    RemainingAtEnd(ty, hashSum, elements);
    h := Mix(hashSum, count);
  }

  // ---- The hash as a running sum

  /** The running sums of a range: 0, then, for each chunk of eight bytes in turn, the hash of the constant, the sum so far
      and the chunk's word. */
  ghost predicate RunningSums(ty: IntType, elements: seq<int>, sums: seq<u64>)
    requires ty.Valid()
  {
    var p := ty.PerWord();
    && |sums| == DivCeil(|elements|, p) + 1 && sums[0] == 0
    && forall i :: 0 <= i < |sums| - 1 ==>
         && i * p < |elements|
         && sums[i + 1] == Hash64((0x3c0aad46f555e0b9 + sums[i]
                                   + Packed(ty, elements[i * p..Min(i * p + p, |elements|)])) % TWO_64)
  }

  lemma {:induction false} FoldFollows(h: u64, words: seq<u64>, sums: seq<u64>)
    requires |sums| == |words| + 1 && sums[0] == h
    requires forall i :: 0 <= i < |words| ==> sums[i + 1] == Mix(sums[i], words[i])
    ensures MixAll(h, words) == sums[|words|]
    decreases |words|
  {
    hide Mix;
    if words != [] {
      FoldFollows(sums[1], words[1..], sums[1..]);
    }
  }

  /** The checksum of a range is the hash of the constant, the last running sum and the number of elements. */
  lemma RangeHashIsRunningSum(ty: IntType, elements: seq<int>, sums: seq<u64>)
    requires ty.Valid() && |elements| < TWO_64 && RunningSums(ty, elements, sums)
    ensures RangeHash(ty, elements)
         == Hash64((0x3c0aad46f555e0b9 + sums[|sums| - 1] + |elements|) % TWO_64)
  {
    hide Hash64, Packed, Chunks;
    var p, words := ty.PerWord(), RangeWords(ty, elements);
    ChunkCount(elements, p);
    forall i | 0 <= i < |words| ensures sums[i + 1] == Mix(sums[i], words[i]) {
      ChunkAt(elements, p, i);
    }
    FoldFollows(0, words, sums);
  }

  // ---- What the hash tells apart

  lemma {:induction false} MixAllIsInjective(h: u64, h': u64, words: seq<u64>)
    requires h != h'
    ensures MixAll(h, words) != MixAll(h', words)
    decreases |words|
  {
    hide Mix;
    if words != [] {
      MixIsInjective(h, words[0], h', words[0]);
      MixAllIsInjective(Mix(h, words[0]), Mix(h', words[0]), words[1..]);
    }
  }

  lemma {:induction false} OneWordDiffers(h: u64, ws: seq<u64>, ws': seq<u64>, i: nat)
    requires |ws| == |ws'| && i < |ws| && ws[i] != ws'[i]
    requires forall j :: 0 <= j < |ws| && j != i ==> ws[j] == ws'[j]
    ensures MixAll(h, ws) != MixAll(h, ws')
    decreases |ws|
  {
    hide Mix;
    if i == 0 {
      assert ws[1..] == ws'[1..];
      MixIsInjective(h, ws[0], h, ws'[0]);
      MixAllIsInjective(Mix(h, ws[0]), Mix(h, ws'[0]), ws[1..]);
    } else {
      OneWordDiffers(Mix(h, ws[0]), ws[1..], ws'[1..], i - 1);
    }
  }

  ghost predicate AllHeld(ty: IntType, elements: seq<int>)
    requires ty.Valid()
  {
    forall i :: 0 <= i < |elements| ==> ty.Holds(elements[i])
  }

  lemma ChunkHeld(ty: IntType, elements: seq<int>, count: nat)
    requires ty.Valid() && count > 0 && AllHeld(ty, elements)
    ensures forall i :: 0 <= i < |Chunks(elements, count)| ==> AllHeld(ty, Chunks(elements, count)[i])
    decreases |elements|
  {
    if elements != [] {
      ChunkHeld(ty, elements[Min(count, |elements|)..], count);
    }
  }

  lemma {:induction false} ChunkShapes(s: seq<int>, t: seq<int>, count: nat)
    requires count > 0 && |s| == |t|
    ensures |Chunks(s, count)| == |Chunks(t, count)|
    ensures forall i :: 0 <= i < |Chunks(s, count)| ==> |Chunks(s, count)[i]| == |Chunks(t, count)[i]|
    decreases |s|
  {
    if s != [] {
      var m := Min(count, |s|);
      ChunkShapes(s[m..], t[m..], count);
    }
  }

  /** Two ranges of equal length that differ inside exactly one eight-byte chunk have different checksums. */
  lemma OneChunkDiffers(ty: IntType, s: seq<int>, t: seq<int>, i: nat)
    requires ty.Valid() && |s| == |t| < TWO_64 && AllHeld(ty, s) && AllHeld(ty, t)
    requires i < |Chunks(s, ty.PerWord())| == |Chunks(t, ty.PerWord())|
    requires Chunks(s, ty.PerWord())[i] != Chunks(t, ty.PerWord())[i]
    requires forall j :: 0 <= j < |Chunks(s, ty.PerWord())| && j != i ==>
      Chunks(s, ty.PerWord())[j] == Chunks(t, ty.PerWord())[j]
    ensures RangeHash(ty, s) != RangeHash(ty, t)
  {
    hide Mix, MixAll, Chunks, Packed;
    var n := ty.PerWord();
    ChunkShapes(s, t, n);
    ChunkHeld(ty, s, n);
    ChunkHeld(ty, t, n);
    var a, b := Chunks(s, n)[i], Chunks(t, n)[i];
    if Packed(ty, a) == Packed(ty, b) {
      PackedIsInjective(ty, a, b);
    }
    OneWordDiffers(0, RangeWords(ty, s), RangeWords(ty, t), i);
    MixIsInjective(MixAll(0, RangeWords(ty, s)), |s|, MixAll(0, RangeWords(ty, t)), |t|);
  }

  /** Ranges that pack to the same words but have different lengths, such as ranges that differ in trailing zeros,
      have different checksums. */
  lemma CountDiffers(ty: IntType, s: seq<int>, t: seq<int>)
    requires ty.Valid() && |s| < TWO_64 && |t| < TWO_64 && |s| != |t|
    requires RangeWords(ty, s) == RangeWords(ty, t)
    ensures RangeHash(ty, s) != RangeHash(ty, t)
  {
    hide Mix, MixAll;
    MixIsInjective(MixAll(0, RangeWords(ty, s)), |s|, MixAll(0, RangeWords(ty, t)), |t|);
  }

  /** Two differing words are no longer always told apart: the second can be chosen to undo the first. */
  lemma TwoWordsCanCollide(h: u64, x: u64, y: u64, x': u64) returns (y': u64)
    ensures MixAll(h, [x, y]) == MixAll(h, [x', y'])
  {
    hide MixSum;
    y' := (Mix(h, x) + y + (TWO_64 - Mix(h, x'))) % TWO_64;
    MixAllStep(h, x, [y]);
    MixAllStep(h, x', [y']);
    MixAllStep(Mix(h, x), y, []);
    MixAllStep(Mix(h, x'), y', []);
    MixIdentifiesSums(Mix(h, x) + y, Mix(h, x') + y');
  }
}
