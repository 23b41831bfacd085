/**
 `Array.prototype.filter` on sequences, and what it means to keep exactly the
 elements that pass a test, in their original order.
 */
module Filtering {

  /** `s.filter(p)`: the elements of `s` that satisfy `p`, left to right. */
  function Filter<T(!new)>(s: seq<T>, p: T -> bool): (r: seq<T>)
    ensures |r| <= |s|
    ensures forall x :: x in r <==> x in s && p(x)
  {
    if s == [] then []
    else (if p(s[0]) then [s[0]] else []) + Filter(s[1..], p)
  }

  /** `r` lists the elements of `s` at the positions `idx`, which increase. */
  ghost predicate SubsequenceAt<T>(s: seq<T>, r: seq<T>, idx: seq<int>) {
    && |idx| == |r|
    && (forall k :: 0 <= k < |idx| ==> 0 <= idx[k] < |s| && r[k] == s[idx[k]])
    && (forall k, l :: 0 <= k < l < |idx| ==> idx[k] < idx[l])
  }

  /** `r` is the order-preserving subsequence of `s` made of exactly the
      positions whose element satisfies `p`. */
  ghost predicate SelectsExactly<T(!new)>(s: seq<T>, p: T -> bool, r: seq<T>) {
    exists idx :: SubsequenceAt(s, r, idx) && forall i :: 0 <= i < |s| ==> (i in idx <==> p(s[i]))
  }

  /** The positions from `lo` on whose element satisfies `p`, increasing. */
  ghost function Kept<T>(s: seq<T>, p: T -> bool, lo: nat): (idx: seq<int>)
    requires lo <= |s|
    ensures forall k :: 0 <= k < |idx| ==> lo <= idx[k] < |s| && p(s[idx[k]])
    ensures forall k, l :: 0 <= k < l < |idx| ==> idx[k] < idx[l]
    ensures forall i :: lo <= i < |s| && p(s[i]) ==> i in idx
    decreases |s| - lo
  {
    if lo == |s| then []
    else (if p(s[lo]) then [lo] else []) + Kept(s, p, lo + 1)
  }

  /** Filtering the suffix from `lo` picks the elements at `Kept(s, p, lo)`. */
  lemma {:induction false} FilterAtKept<T(!new)>(s: seq<T>, p: T -> bool, lo: nat)
    requires lo <= |s|
    ensures SubsequenceAt(s, Filter(s[lo..], p), Kept(s, p, lo))
    decreases |s| - lo
  {
    if lo < |s| {
      FilterAtKept(s, p, lo + 1);
      assert s[lo..][1..] == s[lo + 1..];
    }
  }

  /** `Filter` keeps exactly the passing elements, in their original order. */
  lemma FilterSelectsExactly<T(!new)>(s: seq<T>, p: T -> bool)
    ensures SelectsExactly(s, p, Filter(s, p))
  {
    FilterAtKept(s, p, 0);
    assert s[0..] == s;
    var idx := Kept(s, p, 0);
    assert SubsequenceAt(s, Filter(s, p), idx);
  }

  /** Nothing is dropped when every element passes. */
  lemma {:induction false} FilterAllPass<T(!new)>(s: seq<T>, p: T -> bool)
    requires forall x :: x in s ==> p(x)
    ensures Filter(s, p) == s
  {
    if s != [] {
      FilterAllPass(s[1..], p);
    }
  }

  /** Something is dropped when some element fails. */
  lemma {:induction false} FilterShrinks<T(!new)>(s: seq<T>, p: T -> bool)
    requires exists x :: x in s && !p(x)
    ensures |Filter(s, p)| < |s|
  {
    if p(s[0]) {
      FilterShrinks(s[1..], p);
    }
  }

  /** Filtering twice with the same test is filtering once. */
  lemma FilterIdempotent<T(!new)>(s: seq<T>, p: T -> bool)
    ensures Filter(Filter(s, p), p) == Filter(s, p)
  {
    FilterAllPass(Filter(s, p), p);
  }
}
