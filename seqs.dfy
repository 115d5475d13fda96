/** Sequence helpers shared by the text model. */
module Seqs {

  /** The concatenation, in order, of f(x) for every element x of xs: the value
      a loop `for x in xs: acc += f(x)` leaves in an accumulator that starts empty. */
  function FlatMap<T, U>(xs: seq<T>, f: T -> seq<U>): seq<U>
  {
    if xs == [] then [] else FlatMap(xs[..|xs| - 1], f) + f(xs[|xs| - 1])
  }

  /** Concatenation regroups freely. */
  lemma ConcatAssoc<T>(a: seq<T>, b: seq<T>, c: seq<T>)
    ensures a + b + c == a + (b + c)
  {
  }

  /** Extending a prefix by one element appends that element's contribution. */
  lemma FlatMapPrefixStep<T, U>(xs: seq<T>, i: nat, f: T -> seq<U>)
    requires i < |xs|
    ensures FlatMap(xs[..i + 1], f) == FlatMap(xs[..i], f) + f(xs[i])
  {
    assert xs[..i + 1][..i] == xs[..i];
  }

  /** Flattening distributes over concatenation: what is appended for later
      elements never alters what earlier elements produced. */
  lemma {:induction false} FlatMapAppend<T, U>(xs: seq<T>, ys: seq<T>, f: T -> seq<U>)
    ensures FlatMap(xs + ys, f) == FlatMap(xs, f) + FlatMap(ys, f)
    decreases |ys|
  {
    if ys == [] {
      assert xs + ys == xs;
    } else {
      var ys' := ys[..|ys| - 1];
      assert (xs + ys)[..|xs + ys| - 1] == xs + ys';
      FlatMapAppend(xs, ys', f);
    }
  }

  /** The first element's contribution comes first. */
  lemma FlatMapCons<T, U>(x: T, xs: seq<T>, f: T -> seq<U>)
    ensures FlatMap([x] + xs, f) == f(x) + FlatMap(xs, f)
  {
    FlatMapAppend([x], xs, f);
    assert [x][..0] == [];
  }

  /** The flattening is empty exactly when every element contributes nothing. */
  lemma {:induction false} FlatMapEmptyIff<T, U>(xs: seq<T>, f: T -> seq<U>)
    ensures FlatMap(xs, f) == [] <==> forall i :: 0 <= i < |xs| ==> f(xs[i]) == []
    decreases |xs|
  {
    if xs != [] {
      var xs' := xs[..|xs| - 1];
      FlatMapEmptyIff(xs', f);
      assert forall i :: 0 <= i < |xs'| ==> xs'[i] == xs[i];
    }
  }

  /** Flattening twice equals flattening once with the composed contribution. */
  lemma {:induction false} FlatMapFlatMap<T, U, V>(xs: seq<T>, g: T -> seq<U>, h: U -> seq<V>, k: T -> seq<V>)
    requires forall x :: k(x) == FlatMap(g(x), h)
    ensures FlatMap(FlatMap(xs, g), h) == FlatMap(xs, k)
    decreases |xs|
  {
    if xs != [] {
      var xs' := xs[..|xs| - 1];
      FlatMapFlatMap(xs', g, h, k);
      FlatMapAppend(FlatMap(xs', g), g(xs[|xs| - 1]), h);
    }
  }
}
