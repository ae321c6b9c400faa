/**
 * Generic scans over a collection held in natural (insertion) order: the
 * document store's `find` keeps every matching record, `findOne` takes the
 * first one.
 */
module Sequences {
  import opened Wrappers

  /** The elements of `s` satisfying `keep`, in the order they occur in `s`. */
  function Filter<T>(s: seq<T>, keep: T -> bool): (r: seq<T>)
    ensures |r| <= |s|
  {
    if s == [] then []
    else Filter(s[..|s| - 1], keep) + (if keep(s[|s| - 1]) then [s[|s| - 1]] else [])
  }

  /** `ix` lists, in strictly increasing order, positions of `ys` that spell out `xs`. */
  ghost predicate Embedding<T>(xs: seq<T>, ys: seq<T>, ix: seq<nat>) {
    && |ix| == |xs|
    && (forall k :: 0 <= k < |ix| ==> ix[k] < |ys| && xs[k] == ys[ix[k]])
    && (forall k, l :: 0 <= k < l < |ix| ==> ix[k] < ix[l])
  }

  /** `xs` is an order-preserving subsequence of `ys`. */
  ghost predicate IsSubsequence<T>(xs: seq<T>, ys: seq<T>) {
    exists ix :: Embedding(xs, ys, ix)
  }

  /** Every element kept by `Filter` is an element of the input that satisfies `keep`. */
  lemma {:induction false} FilterSound<T>(s: seq<T>, keep: T -> bool, x: T)
    requires x in Filter(s, keep)
    ensures x in s && keep(x)
  {
    if s != [] {
      var init := s[..|s| - 1];
      if x in Filter(init, keep) {
        FilterSound(init, keep, x);
        assert init <= s;
      }
    }
  }

  /** Every element of the input that satisfies `keep` is kept. */
  lemma {:induction false} FilterComplete<T>(s: seq<T>, keep: T -> bool, x: T)
    requires x in s && keep(x)
    ensures x in Filter(s, keep)
  {
    var init := s[..|s| - 1];
    if x != s[|s| - 1] {
      assert s == init + [s[|s| - 1]];
      FilterComplete(init, keep, x);
    }
  }

  /** Filtering with a predicate every element satisfies returns the input unchanged. */
  lemma {:induction false} FilterKeepsAll<T>(s: seq<T>, keep: T -> bool)
    requires forall x :: x in s ==> keep(x)
    ensures Filter(s, keep) == s
  {
    if s != [] {
      var n := |s| - 1;
      var init := s[..n];
      assert s == init + [s[n]];
      forall x | x in init ensures keep(x) {
        assert x in s;
      }
      FilterKeepsAll(init, keep);
      assert keep(s[n]) by { assert s[n] in s; }
    }
  }

  /** Two predicates that agree on every element select the same elements. */
  lemma {:induction false} FilterAgree<T>(s: seq<T>, keep: T -> bool, keep': T -> bool)
    requires forall x :: keep(x) == keep'(x)
    ensures Filter(s, keep) == Filter(s, keep')
  {
    if s != [] {
      FilterAgree(s[..|s| - 1], keep, keep');
    }
  }

  /** The positions of `s` that `Filter` keeps, as an embedding of its result. */
  lemma {:induction false} FilterEmbedding<T>(s: seq<T>, keep: T -> bool) returns (ix: seq<nat>)
    ensures Embedding(Filter(s, keep), s, ix)
  {
    if s == [] {
      ix := [];
    } else {
      var n := |s| - 1;
      var init := s[..n];
      ix := FilterEmbedding(init, keep);
      if keep(s[n]) {
        ix := ix + [n];
      }
    }
  }

  /** `Filter` returns an order-preserving subsequence of its input. */
  lemma FilterIsSubsequence<T>(s: seq<T>, keep: T -> bool)
    ensures IsSubsequence(Filter(s, keep), s)
  {
    var ix := FilterEmbedding(s, keep);
  }

  /** The position of the first element of `s` satisfying `p`, if there is one. */
  function FirstIndex<T>(s: seq<T>, p: T -> bool): (r: Option<nat>)
    ensures r.Some? ==> r.value < |s| && p(s[r.value])
    ensures r.Some? ==> forall j :: 0 <= j < r.value ==> !p(s[j])
    ensures r.None? <==> forall x :: x in s ==> !p(x)
  {
    if s == [] then None
    else if p(s[0]) then Some(0)
    else match FirstIndex(s[1..], p)
      case None => None
      case Some(i) => Some(i + 1)
  }

  /** `i` is the first position of `s` whose element satisfies `p`. */
  ghost predicate IsFirst<T>(s: seq<T>, p: T -> bool, i: nat) {
    i < |s| && p(s[i]) && forall j :: 0 <= j < i ==> !p(s[j])
  }

  /** `FirstIndex` finds exactly the first satisfying position. */
  lemma FirstIndexIsFirst<T>(s: seq<T>, p: T -> bool, i: nat)
    ensures FirstIndex(s, p) == Some(i) <==> IsFirst(s, p, i)
  {
    if IsFirst(s, p, i) {
      assert s[i] in s;
    }
  }

  /**
   * Appending an element that satisfies `p` to a sequence with no
   * satisfying element makes it the first satisfying one.
   */
  lemma FirstIndexAppend<T>(s: seq<T>, x: T, p: T -> bool)
    requires forall y :: y in s ==> !p(y)
    requires p(x)
    ensures FirstIndex(s + [x], p) == Some(|s|)
  {
    var t := s + [x];
    forall j | 0 <= j < |s| ensures !p(t[j]) {
      assert t[j] == s[j] && s[j] in s;
    }
    FirstIndexIsFirst(t, p, |s|);
  }

  /** Appending an element never changes an existing first match. */
  lemma FirstIndexAppendKeeps<T>(s: seq<T>, x: T, p: T -> bool, i: nat)
    requires FirstIndex(s, p) == Some(i)
    ensures FirstIndex(s + [x], p) == Some(i)
  {
    var t := s + [x];
    FirstIndexIsFirst(s, p, i);
    assert forall j :: 0 <= j <= i ==> t[j] == s[j];
    FirstIndexIsFirst(t, p, i);
  }

  /** The store's `find`: one pass over the collection, keeping each match in turn. */
  method FindAll<T>(s: seq<T>, keep: T -> bool) returns (r: seq<T>)
    ensures r == Filter(s, keep)
  {
    r := [];
    var i := 0;
    while i < |s|
      invariant 0 <= i <= |s|
      invariant r == Filter(s[..i], keep)
    {
      assert s[..i + 1][..i] == s[..i];
      if keep(s[i]) {
        r := r + [s[i]];
      }
      i := i + 1;
    }
    assert s[..i] == s;
  }

  /** The store's `findOne`: the position of the first match, scanning from the front. */
  method FindFirst<T>(s: seq<T>, p: T -> bool) returns (r: Option<nat>)
    ensures r == FirstIndex(s, p)
  {
    var i := 0;
    while i < |s|
      invariant 0 <= i <= |s|
      invariant forall j :: 0 <= j < i ==> !p(s[j])
    {
      if p(s[i]) {
        FirstIndexIsFirst(s, p, i);
        return Some(i);
      }
      i := i + 1;
    }
    r := None;
  }
}
