/** The batching loops of the fetch-icons scripts,
    `for (let i = 0; i < xs.length; i += SIZE) { ... xs.slice(i, i + SIZE) ... }`:
    the list is cut into consecutive slices of at most SIZE elements. */
module Batching {

  /** Ids per image-URL request in the TypeScript script. */
  const UrlBatchSize: nat := 200
  /** Icon files fetched together in the TypeScript script. */
  const FileBatchSize: nat := 10
  /** Icon files fetched together in the JavaScript script. */
  const JsBatchSize: nat := 10

  function Min(a: int, b: int): int {
    if a <= b then a else b
  }

  /** `xs.slice(start, end)` for non-negative bounds: both are clamped to
      the length, and an empty list results when `end` is not after `start`. */
  function Slice<T>(xs: seq<T>, start: nat, end: nat): (s: seq<T>)
    ensures start <= end <= |xs| ==> s == xs[start..end]
    ensures start <= |xs| <= end ==> s == xs[start..]
    ensures |xs| <= start || end <= start ==> s == []
  {
    var lo := Min(start, |xs|);
    var hi := Min(end, |xs|);
    if lo <= hi then xs[lo..hi] else []
  }

  /** The slices the loop takes once `i` has reached `from`. */
  function ChunksFrom<T>(xs: seq<T>, size: nat, from: nat): seq<seq<T>>
    requires size > 0
    decreases |xs| - from
  {
    if from >= |xs| then [] else [Slice(xs, from, from + size)] + ChunksFrom(xs, size, from + size)
  }

  /** Every slice the loop takes, in order. */
  function Chunks<T>(xs: seq<T>, size: nat): seq<seq<T>>
    requires size > 0
  {
    ChunksFrom(xs, size, 0)
  }

  /** One turn of the loop takes the next slice and moves `i` on by `size`. */
  lemma ChunksFromStep<T>(xs: seq<T>, size: nat, from: nat, taken: seq<seq<T>>)
    requires size > 0 && from < |xs|
    ensures taken + ChunksFrom(xs, size, from)
      == (taken + [Slice(xs, from, from + size)]) + ChunksFrom(xs, size, from + size)
  {
  }

  lemma TakeOneMore<T>(xs: seq<T>, j: nat)
    requires j < |xs|
    ensures xs[..j + 1] == xs[..j] + [xs[j]]
  {
  }

  function Flatten<T>(ss: seq<seq<T>>): seq<T> {
    if ss == [] then [] else ss[0] + Flatten(ss[1..])
  }

  lemma {:induction false} FlattenAppend<T>(a: seq<seq<T>>, b: seq<seq<T>>)
    ensures Flatten(a + b) == Flatten(a) + Flatten(b)
    decreases |a|
  {
    if a == [] {
      assert a + b == b;
    } else {
      assert (a + b)[1..] == a[1..] + b;
      FlattenAppend(a[1..], b);
    }
  }

  lemma FlattenSnoc<T>(ss: seq<seq<T>>, s: seq<T>)
    ensures Flatten(ss + [s]) == Flatten(ss) + s
  {
    FlattenAppend(ss, [s]);
    assert Flatten([s]) == s + Flatten([]);
  }

  lemma {:induction false} ChunksFromCover<T>(xs: seq<T>, size: nat, from: nat)
    requires size > 0 && from <= |xs|
    ensures Flatten(ChunksFrom(xs, size, from)) == xs[from..]
    decreases |xs| - from
  {
    if from < |xs| {
      if from + size <= |xs| {
        ChunksFromCover(xs, size, from + size);
        assert xs[from..] == xs[from..from + size] + xs[from + size..];
      } else {
        assert ChunksFrom(xs, size, from + size) == [];
      }
    }
  }

  /** The slices, put back together, are the whole list: every element is
      in exactly one slice, in its original order. */
  lemma ChunksCover<T>(xs: seq<T>, size: nat)
    requires size > 0
    ensures Flatten(Chunks(xs, size)) == xs
  {
    ChunksFromCover(xs, size, 0);
  }

  lemma {:induction false} ChunksFromBounded<T>(xs: seq<T>, size: nat, from: nat)
    requires size > 0
    ensures forall c <- ChunksFrom(xs, size, from) :: 0 < |c| <= size
    decreases |xs| - from
  {
    if from < |xs| {
      ChunksFromBounded(xs, size, from + size);
    }
  }

  /** No slice is empty and none holds more than `size` elements. */
  lemma ChunksBounded<T>(xs: seq<T>, size: nat)
    requires size > 0
    ensures forall c <- Chunks(xs, size) :: 0 < |c| <= size
  {
    ChunksFromBounded(xs, size, 0);
  }

  lemma {:induction false} ChunksFromWithin<T>(xs: seq<T>, size: nat, from: nat)
    requires size > 0
    ensures forall c <- ChunksFrom(xs, size, from) :: forall x <- c :: x in xs
    decreases |xs| - from
  {
    if from < |xs| {
      ChunksFromWithin(xs, size, from + size);
      var c := Slice(xs, from, from + size);
      forall x <- c ensures x in xs {
        var k :| 0 <= k < |c| && c[k] == x;
        assert x == xs[from + k];
      }
    }
  }

  /** Every element of every slice comes from the list. */
  lemma ChunksWithin<T>(xs: seq<T>, size: nat)
    requires size > 0
    ensures forall c <- Chunks(xs, size) :: forall x <- c :: x in xs
  {
    ChunksFromWithin(xs, size, 0);
  }

  /** The number of slices of at most `size` that cover `n` elements. */
  function SliceCount(n: nat, size: nat): nat
    requires size > 0
    decreases n
  {
    if n == 0 then 0 else if n <= size then 1 else 1 + SliceCount(n - size, size)
  }

  lemma {:induction false} ChunksFromCount<T>(xs: seq<T>, size: nat, from: nat)
    requires size > 0 && from <= |xs|
    ensures |ChunksFrom(xs, size, from)| == SliceCount(|xs| - from, size)
    decreases |xs| - from
  {
    if from < |xs| {
      if from + size < |xs| {
        ChunksFromCount(xs, size, from + size);
      } else {
        assert ChunksFrom(xs, size, from + size) == [];
      }
    }
  }

  /** The slice count is ceil(n / size). */
  lemma {:induction false} SliceCountIsCeiling(n: nat, size: nat)
    requires size > 0
    ensures SliceCount(n, size) == (n + size - 1) / size
    decreases n
  {
    if n == 0 {
      assert (size - 1) / size == 0;
    } else if n <= size {
      DivOne(n + size - 1, size);
    } else {
      SliceCountIsCeiling(n - size, size);
      DivStep(n - size + size - 1, size);
    }
  }

  lemma DivOne(a: nat, size: nat)
    requires size > 0 && size <= a < 2 * size
    ensures a / size == 1
  {
  }

  lemma DivStep(a: nat, size: nat)
    requires size > 0
    ensures (a + size) / size == a / size + 1
  {
    var q, r := a / size, a % size;
    assert a == q * size + r;
    assert a + size == (q + 1) * size + r;
    DivUnique(a + size, size, q + 1, r);
  }

  lemma DivUnique(n: nat, d: nat, q: nat, r: nat)
    requires d > 0 && r < d && n == q * d + r
    ensures n / d == q
  {
    DivBounds(n, d);
    assert (q + 1) * d == q * d + d;
    MulCancel(q, n / d + 1, d);
    MulCancel(n / d, q + 1, d);
  }

  lemma MulCancel(a: nat, b: nat, d: nat)
    requires d > 0 && a * d < b * d
    ensures a < b
  {
  }

  lemma DivBounds(n: nat, d: nat)
    requires d > 0
    ensures (n / d) * d <= n < (n / d + 1) * d
  {
  }

  /** There are ceil(n / size) slices. */
  lemma ChunksCount<T>(xs: seq<T>, size: nat)
    requires size > 0
    ensures |Chunks(xs, size)| == (|xs| + size - 1) / size
  {
    ChunksFromCount(xs, size, 0);
    SliceCountIsCeiling(|xs|, size);
  }

  /** Slice number k after `from` starts at `start`, k slices further on. */
  lemma {:induction false} ChunksFromAt<T>(xs: seq<T>, size: nat, from: nat, k: nat, start: nat)
    requires size > 0 && k < |ChunksFrom(xs, size, from)| && start == from + k * size
    ensures start < |xs|
    ensures ChunksFrom(xs, size, from)[k] == Slice(xs, start, start + size)
    decreases k
  {
    assert from < |xs|;
    var rest := ChunksFrom(xs, size, from + size);
    assert ChunksFrom(xs, size, from) == [Slice(xs, from, from + size)] + rest;
    if k > 0 {
      MulPred(k, size);
      assert start == from + size + (k - 1) * size;
      ChunksFromAt(xs, size, from + size, k - 1, start);
    }
  }

  lemma MulPred(k: nat, size: nat)
    requires k > 0
    ensures (k - 1) * size + size == k * size
  {
  }

  /** Slice number k starts at k * size and ends `size` later or at the end
      of the list: the slices are consecutive. */
  lemma ChunkAt<T>(xs: seq<T>, size: nat, k: nat)
    requires size > 0 && k < |Chunks(xs, size)|
    ensures k * size < |xs|
    ensures Chunks(xs, size)[k] == xs[k * size..Min(k * size + size, |xs|)]
  {
    ChunksFromAt(xs, size, 0, k, k * size);
  }

  /** A list no longer than one slice is taken in one slice. */
  lemma OneChunk<T>(xs: seq<T>, size: nat)
    requires 0 < |xs| <= size
    ensures Chunks(xs, size) == [xs]
  {
    assert ChunksFrom(xs, size, size) == [];
  }

  /** 250 ids need exactly two URL requests, of 200 and 50 ids. */
  lemma TwoHundredFiftyIds<T>(ids: seq<T>)
    requires |ids| == 250
    ensures |Chunks(ids, UrlBatchSize)| == 2
    ensures Chunks(ids, UrlBatchSize) == [ids[..200], ids[200..]]
  {
    ChunksCount(ids, UrlBatchSize);
    ChunkAt(ids, UrlBatchSize, 0);
    ChunkAt(ids, UrlBatchSize, 1);
    assert Min(200, 250) == 200 && Min(400, 250) == 250;
    assert ids[200..250] == ids[200..];
  }
}
