/** The optional-value datatype used for searches that may find nothing
    and for oracles that may fail, plus small list helpers. */
module Wrappers {

  datatype Option<+T> = None | Some(value: T)

  function Min(a: int, b: int): int {
    if a <= b then a else b
  }

  /** The concatenation of all pieces, in order. */
  function Concat<T>(xs: seq<seq<T>>): seq<T> {
    if xs == [] then [] else xs[0] + Concat(xs[1..])
  }

  lemma {:induction false} ConcatAppend<T>(xs: seq<seq<T>>, x: seq<T>)
    ensures Concat(xs + [x]) == Concat(xs) + x
  {
    if xs != [] {
      assert (xs + [x])[1..] == xs[1..] + [x];
      ConcatAppend(xs[1..], x);
    }
  }

  lemma {:induction false} ConcatJoin<T>(xs: seq<seq<T>>, ys: seq<seq<T>>)
    ensures Concat(xs + ys) == Concat(xs) + Concat(ys)
  {
    if xs != [] {
      assert (xs + ys)[1..] == xs[1..] + ys;
      ConcatJoin(xs[1..], ys);
    } else {
      assert xs + ys == ys;
    }
  }

  lemma ConcatSingle<T>(x: seq<T>)
    ensures Concat([x]) == x
  {
    assert [x][1..] == [];
  }

  lemma ConcatCons<T>(x: seq<T>, xs: seq<seq<T>>)
    ensures Concat([x] + xs) == x + Concat(xs)
  {
    assert ([x] + xs)[1..] == xs;
  }

  /** The list `[f(xs[0], 0), f(xs[1], 1), ...]`, built by appending one
      element per position, left to right. */
  method MapWithIndex<T, U>(xs: seq<T>, f: (T, nat) -> U) returns (ys: seq<U>)
    ensures |ys| == |xs|
    ensures forall i :: 0 <= i < |xs| ==> ys[i] == f(xs[i], i)
  {
    ys := [];
    var i := 0;
    while i < |xs|
      invariant 0 <= i <= |xs| && |ys| == i
      invariant forall k :: 0 <= k < i ==> ys[k] == f(xs[k], k)
    {
      ys := ys + [f(xs[i], i)];
      i := i + 1;
    }
  }

  /** The list `[f(xs[p], p) for p in picks]`, built left to right. */
  method MapPicked<T, U>(xs: seq<T>, picks: seq<nat>, f: (T, nat) -> U) returns (ys: seq<U>)
    requires forall i :: 0 <= i < |picks| ==> picks[i] < |xs|
    ensures |ys| == |picks|
    ensures forall i :: 0 <= i < |picks| ==> ys[i] == f(xs[picks[i]], picks[i])
  {
    ys := [];
    var i := 0;
    while i < |picks|
      invariant 0 <= i <= |picks| && |ys| == i
      invariant forall k :: 0 <= k < i ==> ys[k] == f(xs[picks[k]], picks[k])
    {
      ys := ys + [f(xs[picks[i]], picks[i])];
      i := i + 1;
    }
  }
}
