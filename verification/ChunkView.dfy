/** The chunking view: an outer and an inner iterator that share one cursor and one remainder kept in the view. */
module ChunkView {
  import opened Modular

  function Min(a: nat, b: nat): nat {
    if a <= b then a else b
  }

  /** The quotient rounded up. */
  function DivCeil(a: nat, b: nat): nat
    requires b > 0
  {
    a / b + (if a % b == 0 then 0 else 1)
  }

  // ---- Reference definition: the blocks of a sequence

  function Chunks<T>(s: seq<T>, count: nat): (r: seq<seq<T>>)
    requires count > 0
    ensures s == [] <==> r == []
    decreases |s|
  {
    if s == [] then [] else [s[..Min(count, |s|)]] + Chunks(s[Min(count, |s|)..], count)
  }

  function Flatten<T>(blocks: seq<seq<T>>): seq<T> {
    if blocks == [] then [] else blocks[0] + Flatten(blocks[1..])
  }

  /** The blocks are the elements in order, each exactly once, in blocks of count with only the last one shorter. */
  lemma {:induction false} ChunksPartition<T>(s: seq<T>, count: nat)
    requires count > 0
    ensures Flatten(Chunks(s, count)) == s
    ensures forall i :: 0 <= i < |Chunks(s, count)| - 1 ==> |Chunks(s, count)[i]| == count
    ensures s != [] ==> 0 < |Chunks(s, count)[|Chunks(s, count)| - 1]| <= count
    decreases |s|
  {
    if s != [] {
      var m := Min(count, |s|);
      ChunksPartition(s[m..], count);
      var r, rest := Chunks(s, count), Chunks(s[m..], count);
      assert r[1..] == rest;
      assert s[..m] + s[m..] == s;
      forall i | 0 <= i < |r| - 1 ensures |r[i]| == count {
        if i > 0 {
          assert r[i] == rest[i - 1];
        }
      }
      if rest != [] {
        assert r[|r| - 1] == rest[|rest| - 1];
      }
    }
  }

  /** The position of block i. */
  ghost function Offset(i: nat, count: nat): nat {
    if i == 0 then 0 else Offset(i - 1, count) + count
  }

  lemma {:induction false} OffsetIsProduct(i: nat, count: nat)
    ensures Offset(i, count) == i * count
  {
    if i > 0 {
      OffsetIsProduct(i - 1, count);
      assert i * count == (i - 1) * count + count;
    }
  }

  lemma {:induction false} BlockAtOffset<T>(s: seq<T>, count: nat, i: nat)
    requires count > 0 && i < |Chunks(s, count)|
    ensures var at := Offset(i, count);
            at < |s| && Chunks(s, count)[i] == s[at..Min(at + count, |s|)]
    decreases i
  {
    if i > 0 {
      BlockAtOffset(s[Min(count, |s|)..], count, i - 1);
      var a := Offset(i - 1, count);
      SliceOfTail(s, count, a, Min(a + count, |s| - count));
    }
  }

  /** Block i is the elements from i * count on. */
  lemma ChunkAt<T>(s: seq<T>, count: nat, i: nat)
    requires count > 0 && i < |Chunks(s, count)|
    ensures 0 <= i * count < |s|
    ensures Chunks(s, count)[i] == s[i * count..Min(i * count + count, |s|)]
  {
    hide Chunks, Offset;
    BlockAtOffset(s, count, i);
    OffsetIsProduct(i, count);
  }

  lemma SliceOfTail<T>(s: seq<T>, m: nat, a: nat, b: nat)
    requires m <= |s| && a <= b <= |s| - m
    ensures s[m..][a..b] == s[m + a..m + b]
  {
  }

  lemma {:induction false} ChunkCount<T>(s: seq<T>, count: nat)
    requires count > 0
    ensures |Chunks(s, count)| == DivCeil(|s|, count)
    decreases |s|
  {
    if |s| > count {
      ChunkCount(s[count..], count);
      DivCeilStep(|s|, count);
    } else if |s| > 0 {
      assert s[|s|..] == [];
      assert |Chunks(s, count)| == 1;
      DivCeilOne(|s|, count);
    } else {
      RemainderIsUnique(0, 0, 0, count);
    }
  }

  lemma ChunksFrom<T>(s: seq<T>, start: nat, count: nat)
    requires count > 0 && start < |s|
    ensures var end := Min(start + count, |s|);
            Chunks(s[start..], count) == [s[start..end]] + Chunks(s[end..], count)
  {
    var end, rest := Min(start + count, |s|), s[start..];
    assert rest[..end - start] == s[start..end];
    assert rest[end - start..] == s[end..];
  }

  lemma DivCeilStep(n: nat, count: nat)
    requires 0 < count <= n
    ensures DivCeil(n, count) == DivCeil(n - count, count) + 1
  {
    RemainderIsUnique(n, (n - count) / count + 1, (n - count) % count, count);
  }

  lemma DivCeilOne(n: nat, count: nat)
    requires 0 < n <= count
    ensures DivCeil(n, count) == 1
  {
    if n == count {
      RemainderIsUnique(n, 1, 0, count);
    } else {
      RemainderIsUnique(n, 0, n, count);
    }
  }

  // ---- The view

  class View<T> {
    const range: seq<T>
    const count: nat
    var current: nat
    var remainder: nat
    /** Where the chunk that the outer iterator stands on begins. */
    ghost var start: nat

    ghost predicate Valid()
      reads this
    {
      && count > 0
      && start <= current <= |range|
      && current - start <= count
      && remainder == (if current == |range| && current > start then 0 else count - (current - start))
    }

    /** The chunk the outer iterator stands on. */
    ghost function Chunk(): seq<T>
      requires Valid()
      reads this
    {
      range[start..Min(start + count, |range|)]
    }

    constructor (range: seq<T>, count: nat)
      requires count > 0
      ensures this.range == range && this.count == count
    {
      this.range, this.count := range, count;
      current, remainder, start := 0, 0, 0;
    }

    /** Places the cursor; nothing may be asked of a view before this. */
    method Begin()
      requires count > 0
      modifies this
      ensures Valid() && start == current == 0
    {
      current := 0;
      remainder := count;
      start := 0;
    }

    /** The outer iterator's end test. */
    predicate OuterAtEnd()
      requires Valid()
      reads this
      ensures OuterAtEnd() <==> start == |range|
    {
      current == |range| && remainder != 0
    }

    /** The inner iterator's end test. */
    predicate InnerAtEnd()
      requires Valid() && start < |range|
      reads this
      ensures InnerAtEnd() <==> current == start + |Chunk()|
    {
      remainder == 0
    }

    /** The inner iterator's element. */
    function Element(): (x: T)
      requires Valid() && start < |range| && !InnerAtEnd()
      reads this
      ensures current - start < |Chunk()| && x == Chunk()[current - start]
    {
      range[current]
    }

    /** Advances the inner iterator. */
    method AdvanceInner()
      requires Valid() && start < |range| && !InnerAtEnd()
      modifies this
      ensures Valid() && start == old(start) && current == old(current) + 1
    {
      current := current + 1;
      if current == |range| {
        remainder := 0;
      } else {
        remainder := remainder - 1;
      }
    }

    /** Advances the outer iterator: wherever the inner one stopped, the next chunk begins where this one ends. */
    method AdvanceOuter()
      requires Valid() && start < |range|
      modifies this
      ensures Valid() && start == current == old(start + |Chunk()|)
    {
      current := Min(current + remainder, |range|);
      remainder := count;
      start := current;
    }

    /** The outer iterator's distance to the end. */
    function OuterDistance(): nat
      requires Valid()
      reads this
    {
      var size := |range| - current;
      if size < remainder then
        if size == 0 then 0 else 1
      else
        DivCeil(size - remainder, count) + 1
    }

    /** The distance counts the chunks from the current one on, however much of it has been consumed. */
    lemma OuterDistanceCountsChunks()
      requires Valid()
      ensures OuterDistance() == |Chunks(range[start..], count)|
    {
      var left := |range| - start;
      ChunkCount(range[start..], count);
      if left >= count {
        DivCeilStep(left, count);
      } else if left > 0 {
        DivCeilOne(left, count);
        RemainderIsUnique(0, 0, 0, count);
      } else {
        RemainderIsUnique(0, 0, 0, count);
      }
    }

    /** The view's size. */
    function Size(): (n: nat)
      requires count > 0
      ensures n == |Chunks(range, count)|
    {
      ChunkCount(range, count);
      DivCeil(|range|, count)
    }
  }

  /** The inner loop: reads the chunk from its beginning, leaving it after at most limit elements. */
  method ReadChunk<T>(view: View<T>, limit: nat) returns (block: seq<T>)
    requires view.Valid() && view.current == view.start < |view.range|
    modifies view
    ensures view.Valid() && view.start == old(view.start)
    ensures block == view.Chunk()[..Min(limit, |view.Chunk()|)]
  {
    ghost var chunk, begin := view.Chunk(), view.start;
    block := [];
    while |block| < limit && !view.InnerAtEnd()
      invariant view.Valid() && view.start == begin && view.current == begin + |block|
      invariant |block| <= |chunk| && block == chunk[..|block|] && |block| <= limit
      decreases |chunk| - |block|
    {
      block := block + [view.Element()];
      view.AdvanceInner();
    }
  }

  /** Each block is the prefix of its chunk that was asked for. */
  ghost predicate Taken<T>(blocks: seq<seq<T>>, chunks: seq<seq<T>>, take: nat -> nat) {
    && |blocks| == |chunks|
    && forall i :: 0 <= i < |blocks| ==> blocks[i] == chunks[i][..Min(take(i), |chunks[i]|)]
  }

  lemma NoneTaken<T>(blocks: seq<seq<T>>, chunks: seq<seq<T>>, take: nat -> nat)
    requires blocks == [] == chunks
    ensures Taken(blocks, chunks, take)
  {
  }

  lemma TakenSnoc<T>(blocks: seq<seq<T>>, chunks: seq<seq<T>>, take: nat -> nat, block: seq<T>, chunk: seq<T>)
    requires Taken(blocks, chunks, take) && block == chunk[..Min(take(|blocks|), |chunk|)]
    ensures Taken(blocks + [block], chunks + [chunk], take)
  {
  }

  /** done are the chunks before start. */
  ghost predicate Before<T>(done: seq<seq<T>>, range: seq<T>, start: nat, count: nat) {
    count > 0 && start <= |range| && done + Chunks(range[start..], count) == Chunks(range, count)
  }

  lemma BeforeFirst<T>(range: seq<T>, count: nat)
    requires count > 0
    ensures Before([], range, 0, count)
  {
    assert range[0..] == range;
  }

  lemma BeforeNext<T>(done: seq<seq<T>>, range: seq<T>, start: nat, count: nat)
    requires Before(done, range, start, count) && start < |range|
    ensures var end := Min(start + count, |range|);
            Before(done + [range[start..end]], range, end, count)
  {
    hide Chunks;
    var end := Min(start + count, |range|);
    ChunksFrom(range, start, count);
    var chunk, rest := range[start..end], Chunks(range[end..], count);
    assert done + ([chunk] + rest) == (done + [chunk]) + rest;
  }

  lemma BeforeEnd<T>(done: seq<seq<T>>, range: seq<T>, count: nat)
    requires Before(done, range, |range|, count)
    ensures done == Chunks(range, count)
  {
    assert range[|range|..] == [];
    assert done + [] == done;
  }

  /** Nested iteration, leaving the i-th chunk after at most take(i) elements: the i-th block is the prefix of the i-th
      chunk that was asked for, so abandoning a chunk never disturbs the ones after it. */
  method Traverse<T>(view: View<T>, take: nat -> nat) returns (blocks: seq<seq<T>>)
    requires view.count > 0
    modifies view
    ensures Taken(blocks, Chunks(view.range, view.count), take)
  {
    hide Chunks, Taken, Before;
    blocks := [];
    view.Begin();
    ghost var done: seq<seq<T>> := [];
    NoneTaken(blocks, done, take);
    BeforeFirst(view.range, view.count);
    while !view.OuterAtEnd()
      invariant view.Valid() && view.current == view.start
      invariant Before(done, view.range, view.start, view.count) && Taken(blocks, done, take)
      decreases |view.range| - view.start
    {
      ghost var chunk := view.Chunk();
      BeforeNext(done, view.range, view.start, view.count);
      var block := ReadChunk(view, take(|blocks|));
      TakenSnoc(blocks, done, take, block, chunk);
      view.AdvanceOuter();
      blocks, done := blocks + [block], done + [chunk];
    }
    BeforeEnd(done, view.range, view.count);
  }
}
