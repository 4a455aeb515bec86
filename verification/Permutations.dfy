/** Rearrangements of a sequence, taken apart one element at a time. */
module Permutations {
  function Without<T>(xs: seq<T>, k: nat): (r: seq<T>)
    requires k < |xs|
    ensures |r| == |xs| - 1
  {
    xs[..k] + xs[k + 1..]
  }

  ghost predicate Rearranged<T(!new)>(xs: seq<T>, ys: seq<T>) {
    |xs| == |ys| && (xs == [] || exists k: nat :: k < |ys| && ys[k] == xs[0] && Rearranged(xs[1..], Without(ys, k)))
  }

  lemma {:induction false} WithoutMultiset<T>(xs: seq<T>, k: nat)
    requires k < |xs|
    ensures multiset(Without(xs, k)) == multiset(xs) - multiset{xs[k]}
  {
    assert xs == xs[..k] + [xs[k]] + xs[k + 1..];
  }

  lemma {:induction false} SameMultiset<T(!new)>(xs: seq<T>, ys: seq<T>)
    requires multiset(xs) == multiset(ys)
    ensures Rearranged(xs, ys)
    decreases |xs|
  {
    assert |xs| == |multiset(xs)| && |ys| == |multiset(ys)|;
    if xs != [] {
      assert xs[0] in multiset(ys);
      var k: nat :| k < |ys| && ys[k] == xs[0];
      WithoutMultiset(xs, 0);
      WithoutMultiset(ys, k);
      assert Without(xs, 0) == xs[1..];
      SameMultiset(xs[1..], Without(ys, k));
    }
  }

  /** The place in `ys` of the first element of `xs`, and what is left. */
  lemma {:induction false} Head<T(!new)>(xs: seq<T>, ys: seq<T>) returns (k: nat)
    requires Rearranged(xs, ys) && xs != []
    ensures k < |ys| && ys[k] == xs[0] && Rearranged(xs[1..], Without(ys, k))
  {
    k :| k < |ys| && ys[k] == xs[0] && Rearranged(xs[1..], Without(ys, k));
  }

  lemma {:induction false} FromHead<T(!new)>(xs: seq<T>, ys: seq<T>, k: nat)
    requires |xs| == |ys| && k < |ys| && ys[k] == xs[0] && Rearranged(xs[1..], Without(ys, k))
    ensures Rearranged(xs, ys)
  {
  }

  lemma {:induction false} SameElements<T(!new)>(xs: seq<T>, ys: seq<T>, x: T)
    requires Rearranged(xs, ys)
    ensures x in xs <==> x in ys
    decreases |xs|
  {
    if xs != [] {
      var k := Head(xs, ys);
      SameElements(xs[1..], Without(ys, k), x);
      assert xs == [xs[0]] + xs[1..] && ys == ys[..k] + [ys[k]] + ys[k + 1..];
    }
  }

  lemma {:induction false} ToFront<T(!new)>(xs: seq<T>, k: nat)
    requires k < |xs|
    ensures Rearranged(xs, [xs[k]] + Without(xs, k))
  {
    WithoutMultiset(xs, k);
    assert multiset([xs[k]] + Without(xs, k)) == multiset(xs);
    SameMultiset(xs, [xs[k]] + Without(xs, k));
  }

  lemma {:induction false} StillThere<T>(xs: seq<T>, k: nat, e: nat) returns (i: nat)
    requires k < |xs| && e < |xs| && e != k
    ensures i < |xs| - 1 && Without(xs, k)[i] == xs[e]
  {
    i := if e < k then e else e - 1;
  }
}
