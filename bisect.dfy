/**
 * Binary search for an insertion point, and what "nearest" means.
 *
 * `BisectLeft` is the algorithm of Python's `bisect.bisect_left` and,
 * step for step, of d3's `bisector(...).left`: halve `[lo, hi)` at
 * `(lo + hi) / 2`, keep the right half while the middle element is
 * below `x`. When `lo >= hi` neither library loops and both return `lo`.
 */
module Bisect {

  /** Non-decreasing timestamps: what both libraries require of their input. */
  ghost predicate NonDecreasing(s: seq<int>) {
    forall i, j :: 0 <= i < j < |s| ==> s[i] <= s[j]
  }

  function BisectLeft(a: seq<int>, x: int, lo: int, hi: int): (i: int)
    requires 0 <= lo && hi <= |a|
    ensures lo <= hi ==> lo <= i <= hi
    ensures lo > hi ==> i == lo
    ensures NonDecreasing(a) ==> forall k :: lo <= k < i && k < hi ==> a[k] < x
    ensures NonDecreasing(a) ==> forall k :: i <= k < hi ==> x <= a[k]
    decreases hi - lo
  {
    if lo < hi then
      var mid := (lo + hi) / 2;
      if a[mid] < x then BisectLeft(a, x, mid + 1, hi) else BisectLeft(a, x, lo, mid)
    else lo
  }

  /** Distance between two instants. */
  function Dist(t: int, x: int): nat {
    if t >= x then t - x else x - t
  }

  /**
   * `times[j]` is as close to `x` as any time in `times`, and no equally
   * close time is earlier: ties between a time before `x` and one after
   * it go to the earlier one.
   */
  ghost predicate IsEarliestNearest(times: seq<int>, x: int, j: int) {
    && 0 <= j < |times|
    && (forall k :: 0 <= k < |times| ==> Dist(times[j], x) <= Dist(times[k], x))
    && (forall k :: 0 <= k < |times| && Dist(times[k], x) == Dist(times[j], x) ==> times[j] <= times[k])
  }

  /** Every index that is earliest-nearest names the same time. */
  lemma EarliestNearestTimeIsUnique(times: seq<int>, x: int, j1: int, j2: int)
    requires IsEarliestNearest(times, x, j1) && IsEarliestNearest(times, x, j2)
    ensures times[j1] == times[j2]
  {
  }
}
