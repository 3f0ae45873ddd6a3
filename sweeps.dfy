/**
 * What the in-place list sweeps leave behind, described without the loop:
 * each element gets a fate, and the list keeps, in order, the elements whose
 * fate says they stay.
 */
module Sweeps {
  /** How many of the fates are f. */
  function Count<F(==)>(fates: seq<F>, f: F): (r: nat)
    ensures r <= |fates|
  {
    if fates == [] then 0
    else Count(fates[..|fates| - 1], f) + (if fates[|fates| - 1] == f then 1 else 0)
  }

  /** The elements of xs whose fate is f, in their original order. */
  function Select<T, F(==)>(xs: seq<T>, fates: seq<F>, f: F): (r: seq<T>)
    requires |xs| == |fates|
    ensures |r| == Count(fates, f)
  {
    if xs == [] then []
    else
      var n := |xs| - 1;
      Select(xs[..n], fates[..n], f) + (if fates[n] == f then [xs[n]] else [])
  }

  /** xs with every element passed through f. */
  function Map<T>(f: T -> T, xs: seq<T>): (r: seq<T>)
    ensures |r| == |xs| && forall i :: 0 <= i < |xs| ==> r[i] == f(xs[i])
  {
    seq(|xs|, i requires 0 <= i < |xs| => f(xs[i]))
  }

  /** Counting over a sequence extended by one fate. */
  lemma CountSnoc<F>(fates: seq<F>, x: F, f: F)
    ensures Count(fates + [x], f) == Count(fates, f) + (if x == f then 1 else 0)
  {
    assert (fates + [x])[..|fates|] == fates;
  }

  /** Selecting over sequences extended by one element. */
  lemma SelectSnoc<T, F>(xs: seq<T>, fates: seq<F>, x: T, y: F, f: F)
    requires |xs| == |fates|
    ensures Select(xs + [x], fates + [y], f) == Select(xs, fates, f) + (if y == f then [x] else [])
  {
    assert (xs + [x])[..|xs|] == xs;
    assert (fates + [y])[..|fates|] == fates;
  }

  /** A non-empty sequence is its front followed by its last element. */
  lemma LastSplit<T>(xs: seq<T>)
    requires xs != []
    ensures xs == xs[..|xs| - 1] + [xs[|xs| - 1]]
  {
  }

  /** Mapping over a sequence extended by one element. */
  lemma MapSnoc<T>(g: T -> T, xs: seq<T>, x: T)
    ensures Map(g, xs + [x]) == Map(g, xs) + [g(x)]
  {
  }

  /**
   * The list surgery of a sweep whose list is the kept prefix followed by the
   * rest: the current element is the first of the rest, and deleting it
   * leaves the kept prefix followed by the remainder.
   */
  lemma DeleteCurrent<T>(kept: seq<T>, rest: seq<T>)
    requires rest != []
    ensures (kept + rest)[|kept|] == rest[0]
    ensures (kept + rest)[..|kept|] + (kept + rest)[|kept| + 1..] == kept + rest[1..]
  {
    assert (kept + rest)[..|kept|] == kept;
    assert (kept + rest)[|kept| + 1..] == rest[1..];
  }

  /** Replacing the current element moves it, replaced, onto the kept prefix. */
  lemma ReplaceCurrent<T>(kept: seq<T>, rest: seq<T>, x: T)
    requires rest != []
    ensures (kept + rest)[|kept| := x] == kept + [x] + rest[1..]
  {
  }
}
