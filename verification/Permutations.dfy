/** Sequences with the same elements, taken apart one element at a time. */
module Permutations {

  lemma SplitMultiset<T>(xs: seq<T>, k: nat)
    requires k < |xs|
    ensures multiset(xs) == multiset(xs[..k] + xs[k + 1..]) + multiset{xs[k]}
    ensures k == |xs| - 1 ==> xs[..k] + xs[k + 1..] == xs[..k]
  {
    assert xs == xs[..k] + [xs[k]] + xs[k + 1..];
  }

  lemma CancelMultiset<T>(a: multiset<T>, b: multiset<T>, x: T)
    requires a + multiset{x} == b + multiset{x}
    ensures a == b
  {
    assert a == (a + multiset{x}) - multiset{x};
    assert b == (b + multiset{x}) - multiset{x};
  }

  lemma IndexIn<T>(xs: seq<T>, ys: seq<T>, i: nat) returns (k: nat)
    requires multiset(xs) == multiset(ys) && i < |xs|
    ensures k < |ys| && ys[k] == xs[i]
  {
    assert xs[i] in multiset(ys);
    k :| 0 <= k < |ys| && ys[k] == xs[i];
  }

  /** Where the last element of `xs` stands in `ys`; without it the two are permutations still. */
  lemma RemoveLast<T>(xs: seq<T>, ys: seq<T>) returns (k: nat)
    requires xs != [] && multiset(xs) == multiset(ys)
    ensures k < |ys| && ys[k] == xs[|xs| - 1]
    ensures multiset(xs[..|xs| - 1]) == multiset(ys[..k] + ys[k + 1..])
  {
    var n := |xs| - 1;
    k := IndexIn(xs, ys, n);
    SplitMultiset(xs, n);
    SplitMultiset(ys, k);
    CancelMultiset(multiset(xs[..n]), multiset(ys[..k] + ys[k + 1..]), xs[n]);
  }
}
