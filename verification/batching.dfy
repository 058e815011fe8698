/** How the documents are handed to the vector store: in consecutive
    batches of at most fifty, together with their ids. */
module Batching {
  import opened Wrappers

  const BatchSize: nat := 50

  /** The positions `lo` up to but not including `hi`. */
  datatype Batch = Batch(lo: nat, hi: nat)

  predicate Holds(b: Batch, x: int) {
    b.lo <= x < b.hi
  }

  /** `bs` splits the positions `lo..hi` into non-empty consecutive batches
      of at most `BatchSize`, in order. */
  predicate Tiles(bs: seq<Batch>, lo: nat, hi: nat) {
    && (bs == [] ==> lo == hi)
    && (bs != [] ==> bs[0].lo == lo && bs[|bs| - 1].hi == hi)
    && (forall k :: 0 <= k < |bs| ==> bs[k].lo < bs[k].hi <= bs[k].lo + BatchSize)
    && (forall k :: 0 < k < |bs| ==> bs[k].lo == bs[k - 1].hi)
  }

  /** The `k`-th batch for `n` documents: `[50k, min(50k + 50, n))`. */
  function BatchAt(k: nat, n: nat): Batch {
    Batch(k * BatchSize, Min(k * BatchSize + BatchSize, n))
  }

  /** The batch ranges for `n` documents: `[i, min(i + 50, n))` for
      `i = 0, 50, 100, …` below `n`. */
  method BatchRanges(n: nat) returns (bs: seq<Batch>)
    ensures Tiles(bs, 0, n)
    ensures |bs| == (n + BatchSize - 1) / BatchSize
    ensures forall k :: 0 <= k < |bs| ==> bs[k].lo == k * BatchSize
  {
    bs := [];
    var i := 0;
    while i < n
      invariant i == |bs| * BatchSize
      invariant i == 0 || i - BatchSize < n
      invariant forall k :: 0 <= k < |bs| ==> bs[k] == BatchAt(k, n)
    {
      bs := bs + [Batch(i, Min(i + BatchSize, n))];
      i := i + BatchSize;
    }
    BatchesAtTile(bs, n);
  }

  /** The first `m` batches, when they reach `n` and the last one starts
      below `n`, tile `0..n` and are as many as `n / 50` rounded up. */
  lemma BatchesAtTile(bs: seq<Batch>, n: nat)
    requires |bs| * BatchSize >= n
    requires bs == [] || (|bs| - 1) * BatchSize < n
    requires forall k :: 0 <= k < |bs| ==> bs[k] == BatchAt(k, n)
    ensures Tiles(bs, 0, n)
    ensures |bs| == (n + BatchSize - 1) / BatchSize
  {
    forall k | 0 <= k < |bs| ensures bs[k].lo < bs[k].hi <= bs[k].lo + BatchSize {
      assert k * BatchSize <= (|bs| - 1) * BatchSize;
    }
  }

  /** Batches that tile a range come in increasing order. */
  lemma {:induction false} TilesOrdered(bs: seq<Batch>, lo: nat, hi: nat, j: nat, k: nat)
    requires Tiles(bs, lo, hi) && j < k < |bs|
    ensures bs[j].hi <= bs[k].lo
    decreases k - j
  {
    if j + 1 < k {
      TilesOrdered(bs, lo, hi, j + 1, k);
    }
  }

  lemma {:induction false} TilesBounds(bs: seq<Batch>, lo: nat, hi: nat, k: nat)
    requires Tiles(bs, lo, hi) && k < |bs|
    ensures lo <= bs[k].lo && bs[k].hi <= hi
  {
    if 0 < k {
      TilesOrdered(bs, lo, hi, 0, k);
    }
    if k < |bs| - 1 {
      TilesOrdered(bs, lo, hi, k, |bs| - 1);
    }
  }

  /** Every position of the range lies in exactly one batch. */
  lemma {:induction false} TilesCoverOnce(bs: seq<Batch>, lo: nat, hi: nat, x: nat)
    requires Tiles(bs, lo, hi) && lo <= x < hi
    ensures exists k :: 0 <= k < |bs| && Holds(bs[k], x)
    ensures forall j, k :: 0 <= j < |bs| && 0 <= k < |bs| && Holds(bs[j], x) && Holds(bs[k], x) ==> j == k
  {
    TilesFind(bs, lo, hi, x, 0);
    forall j, k | 0 <= j < |bs| && 0 <= k < |bs| && Holds(bs[j], x) && Holds(bs[k], x)
      ensures j == k
    {
      if j < k {
        TilesOrdered(bs, lo, hi, j, k);
      } else if k < j {
        TilesOrdered(bs, lo, hi, k, j);
      }
    }
  }

  lemma {:induction false} TilesFind(bs: seq<Batch>, lo: nat, hi: nat, x: nat, from: nat)
    requires Tiles(bs, lo, hi) && from < |bs| && bs[from].lo <= x < hi
    ensures exists k :: from <= k < |bs| && Holds(bs[k], x)
    decreases |bs| - from
  {
    if x >= bs[from].hi {
      TilesFind(bs, lo, hi, x, from + 1);
    }
  }

  /** The slices `xs[lo:hi]` of the batches, in order. */
  function Slices<T>(xs: seq<T>, bs: seq<Batch>): (r: seq<seq<T>>)
    requires forall k :: 0 <= k < |bs| ==> bs[k].lo <= bs[k].hi <= |xs|
    ensures |r| == |bs|
    ensures forall k :: 0 <= k < |bs| ==> |r[k]| == bs[k].hi - bs[k].lo
  {
    seq(|bs|, k requires 0 <= k < |bs| => xs[bs[k].lo..bs[k].hi])
  }

  /** Handing over the batches one after the other hands over every item
      exactly once, in order. */
  lemma {:induction false} BatchesReassemble<T>(xs: seq<T>, bs: seq<Batch>, lo: nat)
    requires Tiles(bs, lo, |xs|)
    ensures forall k :: 0 <= k < |bs| ==> bs[k].lo <= bs[k].hi <= |xs|
    ensures Concat(Slices(xs, bs)) == xs[lo..]
    decreases |bs|
  {
    forall k | 0 <= k < |bs| ensures bs[k].lo <= bs[k].hi <= |xs| {
      TilesBounds(bs, lo, |xs|, k);
    }
    if bs != [] {
      TilesTail(bs, lo, |xs|);
      BatchesReassemble(xs, bs[1..], bs[0].hi);
      ConcatSlicesCons(xs, bs);
      SliceSplit(xs, lo, bs[0].hi);
    }
  }

  /** After the first batch, the others tile the rest of the range. */
  lemma TilesTail(bs: seq<Batch>, lo: nat, hi: nat)
    requires Tiles(bs, lo, hi) && bs != []
    ensures Tiles(bs[1..], bs[0].hi, hi)
  {
  }

  lemma ConcatSlicesCons<T>(xs: seq<T>, bs: seq<Batch>)
    requires bs != [] && forall k :: 0 <= k < |bs| ==> bs[k].lo <= bs[k].hi <= |xs|
    ensures Concat(Slices(xs, bs)) == xs[bs[0].lo..bs[0].hi] + Concat(Slices(xs, bs[1..]))
  {
    assert Slices(xs, bs)[1..] == Slices(xs, bs[1..]);
  }

  lemma SliceSplit<T>(xs: seq<T>, lo: nat, mid: nat)
    requires lo <= mid <= |xs|
    ensures xs[lo..] == xs[lo..mid] + xs[mid..]
  {
  }
}
