/**
 * Concatenating what a function gives for each element of a sequence, the
 * shape of every "for x in xs: collect f(x)" loop of the extractor.
 */
module Seqs {

  /** `f(xs[0]) + f(xs[1]) + ...`, in order. */
  function FlatMap<T, U>(xs: seq<T>, f: T -> seq<U>): seq<U> {
    if xs == [] then []
    else FlatMap(xs[..|xs| - 1], f) + f(xs[|xs| - 1])
  }

  /** One more element contributes its own part at the end. */
  lemma FlatMapSnoc<T, U>(xs: seq<T>, x: T, f: T -> seq<U>)
    ensures FlatMap(xs + [x], f) == FlatMap(xs, f) + f(x)
  {
    assert (xs + [x])[..|xs|] == xs;
  }

  /** The prefix form of `FlatMapSnoc`, as a loop over `xs` uses it. */
  lemma FlatMapPrefix<T, U>(xs: seq<T>, i: nat, f: T -> seq<U>)
    requires i < |xs|
    ensures FlatMap(xs[..i + 1], f) == FlatMap(xs[..i], f) + f(xs[i])
  {
    assert xs[..i + 1] == xs[..i] + [xs[i]];
    FlatMapSnoc(xs[..i], xs[i], f);
  }

  /** Flattening distributes over concatenation. */
  lemma {:induction false} FlatMapConcat<T, U>(a: seq<T>, b: seq<T>, f: T -> seq<U>)
    ensures FlatMap(a + b, f) == FlatMap(a, f) + FlatMap(b, f)
    decreases |b|
  {
    if b == [] {
      assert a + b == a;
    } else {
      var init, last := b[..|b| - 1], b[|b| - 1];
      assert a + b == (a + init) + [last];
      FlatMapSnoc(a + init, last, f);
      FlatMapConcat(a, init, f);
      FlatMapSnoc(init, last, f);
      assert b == init + [last];
    }
  }

  /** `[f(x) for x in xs if keep(x)]`. */
  function MapWhere<T, U>(xs: seq<T>, keep: T -> bool, f: T -> U): seq<U> {
    if xs == [] then []
    else MapWhere(xs[..|xs| - 1], keep, f) + if keep(xs[|xs| - 1]) then [f(xs[|xs| - 1])] else []
  }

  /** The positions of the elements `keep` accepts, in increasing order. */
  ghost function Where<T>(xs: seq<T>, keep: T -> bool): seq<nat> {
    if xs == [] then []
    else Where(xs[..|xs| - 1], keep) + if keep(xs[|xs| - 1]) then [|xs| - 1] else []
  }

  /**
   * Element `j` of the filtered map is `f` of input element `idx[j]`, the
   * positions increase, and a position is chosen exactly when `keep` accepts
   * its element.
   */
  lemma {:induction false} MapWhereAt<T, U>(xs: seq<T>, keep: T -> bool, f: T -> U)
    ensures var r, idx := MapWhere(xs, keep, f), Where(xs, keep);
      && |idx| == |r|
      && (forall j | 0 <= j < |idx| :: idx[j] < |xs| && r[j] == f(xs[idx[j]]))
      && (forall a, b | 0 <= a < b < |idx| :: idx[a] < idx[b])
      && (forall i | 0 <= i < |xs| :: keep(xs[i]) <==> i in idx)
  {
    if xs != [] {
      var n := |xs| - 1;
      var init := xs[..n];
      MapWhereAt(init, keep, f);
      var ii := Where(init, keep);
      assert forall i | 0 <= i < n :: init[i] == xs[i];
      var idx := Where(xs, keep);
      assert n !in ii;
      forall i | 0 <= i < |xs| ensures keep(xs[i]) <==> i in idx {
        if i < n {
          assert i in idx <==> i in ii;
        }
      }
    }
  }
}
