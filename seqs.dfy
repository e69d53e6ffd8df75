/**
 * Generic facts about sequences that the table code leans on: growing a
 * prefix one element at a time, concatenating what a function gives for each
 * element, and the union of the sets it gives.
 */
module Seqs {

  /** Growing a prefix by one element, as a loop over rows or lines does. */
  lemma PrefixStep<T>(s: seq<T>, i: nat)
    requires i < |s|
    ensures s[..i + 1] == s[..i] + [s[i]]
  {
  }

  /** `f(xs[0]) + f(xs[1]) + ...`, in the order of `xs`. */
  function Concat<A, B>(xs: seq<A>, f: A -> seq<B>): seq<B> {
    if xs == [] then [] else f(xs[0]) + Concat(xs[1..], f)
  }

  /** An element of the concatenation comes from the image of some element. */
  lemma {:induction false} ConcatSpec<A, B>(xs: seq<A>, f: A -> seq<B>, b: B)
    ensures b in Concat(xs, f) <==> exists k :: 0 <= k < |xs| && b in f(xs[k])
  {
    if xs != [] {
      ConcatSpec(xs[1..], f, b);
      if b in Concat(xs[1..], f) {
        var k :| 0 <= k < |xs| - 1 && b in f(xs[1..][k]);
        assert xs[k + 1] == xs[1..][k];
      }
      forall k | 0 < k < |xs| && b in f(xs[k]) ensures b in Concat(xs[1..], f) {
        assert xs[1..][k - 1] == xs[k];
      }
    }
  }

  /** The union of `f(x)` over the elements of `xs`, built from the front as a loop builds it. */
  function UnionOf<A, B>(xs: seq<A>, f: A -> set<B>): set<B> {
    if xs == [] then {} else UnionOf(xs[..|xs| - 1], f) + f(xs[|xs| - 1])
  }

  lemma {:induction false} UnionOfSpec<A, B>(xs: seq<A>, f: A -> set<B>, b: B)
    ensures b in UnionOf(xs, f) <==> exists k :: 0 <= k < |xs| && b in f(xs[k])
  {
    if xs != [] {
      var init := xs[..|xs| - 1];
      UnionOfSpec(init, f, b);
      if b in UnionOf(init, f) {
        var k :| 0 <= k < |init| && b in f(init[k]);
        assert init[k] == xs[k];
      }
      forall k | 0 <= k < |xs| - 1 && b in f(xs[k]) ensures b in UnionOf(init, f) {
        assert init[k] == xs[k];
      }
    }
  }

  lemma UnionOfStep<A, B>(xs: seq<A>, f: A -> set<B>, i: nat)
    requires i < |xs|
    ensures UnionOf(xs[..i + 1], f) == UnionOf(xs[..i], f) + f(xs[i])
  {
    assert xs[..i + 1][..i] == xs[..i];
  }

  /** When `f` gives exactly `{ys[k]}` for `xs[k]`, the union is the set of elements of `ys`. */
  lemma {:induction false} UnionOfSingletons<A, B>(xs: seq<A>, f: A -> set<B>, ys: seq<B>)
    requires |xs| == |ys|
    requires forall k :: 0 <= k < |xs| ==> f(xs[k]) == {ys[k]}
    ensures UnionOf(xs, f) == set y | y in ys
  {
    if xs != [] {
      var n := |xs| - 1;
      var xi, yi := xs[..n], ys[..n];
      forall k | 0 <= k < n ensures f(xi[k]) == {yi[k]} {
        assert xi[k] == xs[k] && yi[k] == ys[k];
      }
      UnionOfSingletons(xi, f, yi);
      assert ys == yi + [ys[n]];
      assert (set y | y in ys) == (set y | y in yi) + {ys[n]};
    }
  }
}
