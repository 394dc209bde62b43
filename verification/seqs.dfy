/** Order-preserving filtering of sequences, the shape shared by every
    "keep some elements and transform them" loop of the site code
    (`$('a').each` with `push`, `_.forEach` with `push`, `_.filter` and
    `_.map`). */
module Seqs {
  import opened Base

  /** Keeps the elements `f` maps to `Some`, replaced by that value, in
      their original order. */
  function FilterMap<T, U>(xs: seq<T>, f: T -> Option<U>): (r: seq<U>)
    ensures |r| <= |xs|
  {
    if |xs| == 0 then []
    else (match f(xs[0]) case Some(y) => [y] case None => []) + FilterMap(xs[1..], f)
  }

  lemma {:induction false} FilterMapAppend<T, U>(a: seq<T>, b: seq<T>, f: T -> Option<U>)
    ensures FilterMap(a + b, f) == FilterMap(a, f) + FilterMap(b, f)
    decreases |a|
  {
    if |a| == 0 {
      assert a + b == b;
    } else {
      assert (a + b)[1..] == a[1..] + b;
      FilterMapAppend(a[1..], b, f);
    }
  }

  lemma FilterMapSingle<T, U>(x: T, f: T -> Option<U>)
    ensures FilterMap([x], f) == match f(x) case Some(y) => [y] case None => []
  {
    assert [x][1..] == [];
  }

  /** The positions among the first `n` elements that `f` keeps. */
  function Kept<T, U>(xs: seq<T>, f: T -> Option<U>, n: nat): seq<nat>
    requires n <= |xs|
  {
    if n == 0 then []
    else Kept(xs, f, n - 1) + (if f(xs[n - 1]).Some? then [n - 1] else [])
  }

  lemma {:induction false} KeptMatches<T, U>(xs: seq<T>, f: T -> Option<U>, n: nat)
    requires n <= |xs|
    ensures |Kept(xs, f, n)| == |FilterMap(xs[..n], f)|
    ensures forall k :: 0 <= k < |Kept(xs, f, n)| ==>
      Kept(xs, f, n)[k] < n && f(xs[Kept(xs, f, n)[k]]) == Some(FilterMap(xs[..n], f)[k])
  {
    if n > 0 {
      KeptMatches(xs, f, n - 1);
      assert xs[..n] == xs[..n - 1] + [xs[n - 1]];
      FilterMapAppend(xs[..n - 1], [xs[n - 1]], f);
      FilterMapSingle(xs[n - 1], f);
    }
  }

  lemma {:induction false} KeptIncreasing<T, U>(xs: seq<T>, f: T -> Option<U>, n: nat)
    requires n <= |xs|
    ensures forall k :: 0 <= k < |Kept(xs, f, n)| ==> Kept(xs, f, n)[k] < n
    ensures forall k, m :: 0 <= k < m < |Kept(xs, f, n)| ==> Kept(xs, f, n)[k] < Kept(xs, f, n)[m]
  {
    if n > 0 {
      KeptIncreasing(xs, f, n - 1);
    }
  }

  lemma {:induction false} KeptComplete<T, U>(xs: seq<T>, f: T -> Option<U>, n: nat)
    requires n <= |xs|
    ensures forall i :: 0 <= i < n && f(xs[i]).Some? ==> i in Kept(xs, f, n)
  {
    if n > 0 {
      KeptComplete(xs, f, n - 1);
    }
  }

  /** Every kept element yields exactly one output and every output comes
      from a kept element, in order: `idx[k]` is the position in `xs` of the
      element the k-th output comes from. */
  lemma FilterMapIndex<T, U>(xs: seq<T>, f: T -> Option<U>) returns (idx: seq<nat>)
    ensures |idx| == |FilterMap(xs, f)|
    ensures forall k :: 0 <= k < |idx| ==> idx[k] < |xs| && f(xs[idx[k]]) == Some(FilterMap(xs, f)[k])
    ensures forall k, m :: 0 <= k < m < |idx| ==> idx[k] < idx[m]
    ensures forall i :: 0 <= i < |xs| && f(xs[i]).Some? ==> i in idx
  {
    idx := Kept(xs, f, |xs|);
    assert xs[..|xs|] == xs;
    KeptMatches(xs, f, |xs|);
    KeptIncreasing(xs, f, |xs|);
    KeptComplete(xs, f, |xs|);
  }

  /** A property of every value `f` produces holds of every output. */
  lemma {:induction false} FilterMapAll<T, U>(xs: seq<T>, f: T -> Option<U>, p: U -> bool)
    requires forall x :: f(x).Some? ==> p(f(x).value)
    ensures forall k :: 0 <= k < |FilterMap(xs, f)| ==> p(FilterMap(xs, f)[k])
    decreases |xs|
  {
    if |xs| > 0 {
      FilterMapAll(xs[1..], f, p);
      assert f(xs[0]).Some? ==> p(f(xs[0]).value);
    }
  }

  /** Concatenates the two-element blocks `f` gives for each element. */
  function FlatMapPairs<T(!new), U>(xs: seq<T>, f: T -> seq<U>): (r: seq<U>)
    requires forall x :: |f(x)| == 2
    ensures |r| == 2 * |xs|
  {
    if |xs| == 0 then [] else f(xs[0]) + FlatMapPairs(xs[1..], f)
  }

  /** The block of element `k` sits at positions `2k` and `2k + 1`. */
  lemma {:induction false} FlatMapPairsAt<T(!new), U>(xs: seq<T>, f: T -> seq<U>, k: nat)
    requires forall x :: |f(x)| == 2
    requires k < |xs|
    ensures FlatMapPairs(xs, f)[2 * k] == f(xs[k])[0]
    ensures FlatMapPairs(xs, f)[2 * k + 1] == f(xs[k])[1]
    decreases k
  {
    var a := f(xs[0]);
    var b := FlatMapPairs(xs[1..], f);
    assert FlatMapPairs(xs, f) == a + b;
    if k > 0 {
      FlatMapPairsAt(xs[1..], f, k - 1);
      assert xs[1..][k - 1] == xs[k];
      assert (a + b)[2 * k] == b[2 * (k - 1)];
      assert (a + b)[2 * k + 1] == b[2 * (k - 1) + 1];
    }
  }
}
