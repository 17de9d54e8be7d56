/**
 * Stable sorting, as done by Python's `list.sort(key=...)` and by
 * JavaScript's `Array.prototype.sort` (stable since ES2019).
 *
 * `Sorted(s, le)` is the reference result: insertion of each element,
 * left to right, after every element it is not smaller than. The
 * lemmas show that it is ordered, a permutation of `s`, and stable
 * (elements of equal key keep their input order), which together fix
 * the result of any stable sort. `SortInPlace` is the in-place
 * algorithm on an array, proved to produce exactly `Sorted`.
 */
module StableSort {

  /** `le` orders all values and is transitive (a key comparison is). */
  ghost predicate TotalPreorder<T(!new)>(le: (T, T) -> bool) {
    && (forall x, y :: le(x, y) || le(y, x))
    && (forall x, y, z :: le(x, y) && le(y, z) ==> le(x, z))
  }

  /** Every element is `le` every later element. */
  ghost predicate IsSortedBy<T>(s: seq<T>, le: (T, T) -> bool) {
    forall i, j :: 0 <= i < j < |s| ==> le(s[i], s[j])
  }

  /** Same key under `le`. */
  predicate Equiv<T>(x: T, y: T, le: (T, T) -> bool) {
    le(x, y) && le(y, x)
  }

  /** The elements of `s` whose key equals that of `y`, in order. */
  function KeyClass<T>(s: seq<T>, y: T, le: (T, T) -> bool): (c: seq<T>)
    ensures |c| <= |s|
  {
    if |s| == 0 then []
    else KeyClass(s[..|s| - 1], y, le) + (if Equiv(s[|s| - 1], y, le) then [s[|s| - 1]] else [])
  }

  /** `x` inserted into `r` after the last element whose key is not above its own. */
  function InsertLast<T>(r: seq<T>, x: T, le: (T, T) -> bool): (q: seq<T>)
    ensures |q| == |r| + 1
  {
    if |r| == 0 || le(r[|r| - 1], x) then r + [x]
    else InsertLast(r[..|r| - 1], x, le) + [r[|r| - 1]]
  }

  /** The stably sorted order of `s`. */
  function Sorted<T>(s: seq<T>, le: (T, T) -> bool): (r: seq<T>)
    ensures |r| == |s|
  {
    if |s| == 0 then [] else InsertLast(Sorted(s[..|s| - 1], le), s[|s| - 1], le)
  }

  lemma {:induction false} InsertLastPermutes<T>(r: seq<T>, x: T, le: (T, T) -> bool)
    ensures multiset(InsertLast(r, x, le)) == multiset(r) + multiset{x}
  {
    if |r| == 0 || le(r[|r| - 1], x) {
    } else {
      InsertLastPermutes(r[..|r| - 1], x, le);
      assert r == r[..|r| - 1] + [r[|r| - 1]];
    }
  }

  lemma {:induction false} InsertLastKeepsOrder<T(!new)>(r: seq<T>, x: T, le: (T, T) -> bool)
    requires TotalPreorder(le)
    requires IsSortedBy(r, le)
    ensures IsSortedBy(InsertLast(r, x, le), le)
  {
    if |r| == 0 || le(r[|r| - 1], x) {
      var q := r + [x];
      forall i, j | 0 <= i < j < |q| ensures le(q[i], q[j]) {
        if j == |r| && i < |r| - 1 {
          assert le(r[i], r[|r| - 1]);
        }
      }
    } else {
      var init, last := r[..|r| - 1], r[|r| - 1];
      assert IsSortedBy(init, le);
      InsertLastKeepsOrder(init, x, le);
      var ins := InsertLast(init, x, le);
      InsertLastPermutes(init, x, le);
      forall e | e in ins ensures le(e, last) {
        assert e in multiset(ins);
        if e != x {
          assert e in multiset(init);
          var i :| 0 <= i < |init| && init[i] == e;
          assert le(r[i], r[|r| - 1]);
        }
      }
      var q := ins + [last];
      forall i, j | 0 <= i < j < |q| ensures le(q[i], q[j]) {
        if j == |ins| {
          assert q[i] in ins;
        }
      }
    }
  }

  lemma {:induction false} InsertLastClass<T(!new)>(r: seq<T>, x: T, y: T, le: (T, T) -> bool)
    requires TotalPreorder(le)
    ensures KeyClass(InsertLast(r, x, le), y, le)
         == KeyClass(r, y, le) + (if Equiv(x, y, le) then [x] else [])
  {
    if |r| == 0 || le(r[|r| - 1], x) {
      InsertLastClassAtEnd(r, x, y, le);
    } else {
      var init, last := r[..|r| - 1], r[|r| - 1];
      InsertLastClass(init, x, y, le);
      assert r == init + [last];
      if Equiv(x, y, le) {
        AboveIsNotEquiv(last, x, y, le);
      }
      InsertLastClassPast(init, last, x, y, le);
    }
  }

  /** `x` lands at the end: its key class gains `x` last, if `x` belongs to it. */
  lemma InsertLastClassAtEnd<T>(r: seq<T>, x: T, y: T, le: (T, T) -> bool)
    requires |r| == 0 || le(r[|r| - 1], x)
    ensures KeyClass(InsertLast(r, x, le), y, le)
         == KeyClass(r, y, le) + (if Equiv(x, y, le) then [x] else [])
  {
    assert (r + [x])[..|r|] == r;
  }

  /** `x` passes `last`, strictly above it: the key class of `y` is unaffected by the order of the two. */
  lemma InsertLastClassPast<T>(init: seq<T>, last: T, x: T, y: T, le: (T, T) -> bool)
    requires !le(last, x)
    requires Equiv(x, y, le) ==> !Equiv(last, y, le)
    requires KeyClass(InsertLast(init, x, le), y, le)
          == KeyClass(init, y, le) + (if Equiv(x, y, le) then [x] else [])
    ensures KeyClass(InsertLast(init + [last], x, le), y, le)
         == KeyClass(init + [last], y, le) + (if Equiv(x, y, le) then [x] else [])
  {
    var ins := InsertLast(init, x, le);
    var c := if Equiv(x, y, le) then [x] else [];
    var e := if Equiv(last, y, le) then [last] else [];
    calc {
      KeyClass(InsertLast(init + [last], x, le), y, le);
      { assert (init + [last])[..|init|] == init; }
      KeyClass(ins + [last], y, le);
      { assert (ins + [last])[..|ins|] == ins; }
      KeyClass(ins, y, le) + e;
      KeyClass(init, y, le) + c + e;
      { SwapEmpty(KeyClass(init, y, le), c, e); }
      KeyClass(init, y, le) + e + c;
      { assert (init + [last])[..|init|] == init; }
      KeyClass(init + [last], y, le) + c;
    }
  }

  /** Two appended pieces commute when one of them is empty. */
  lemma SwapEmpty<T>(k: seq<T>, c: seq<T>, e: seq<T>)
    requires c == [] || e == []
    ensures k + c + e == k + e + c
  {
    if c == [] {
      assert k + c == k;
      assert k + e + c == k + e;
    } else {
      assert k + e == k;
      assert k + c + e == k + c;
    }
  }

  /** An element strictly above `x` does not share the key of anything equivalent to `x`. */
  lemma AboveIsNotEquiv<T(!new)>(e: T, x: T, y: T, le: (T, T) -> bool)
    requires TotalPreorder(le)
    requires !le(e, x) && Equiv(x, y, le)
    ensures !Equiv(e, y, le)
  {
  }

  /** The sorted result is ordered by `le`. */
  lemma {:induction false} SortedIsOrdered<T(!new)>(s: seq<T>, le: (T, T) -> bool)
    requires TotalPreorder(le)
    ensures IsSortedBy(Sorted(s, le), le)
  {
    if |s| > 0 {
      SortedIsOrdered(s[..|s| - 1], le);
      InsertLastKeepsOrder(Sorted(s[..|s| - 1], le), s[|s| - 1], le);
    }
  }

  /** The sorted result holds exactly the elements of `s`, each as often. */
  lemma {:induction false} SortedIsPermutation<T>(s: seq<T>, le: (T, T) -> bool)
    ensures multiset(Sorted(s, le)) == multiset(s)
  {
    if |s| > 0 {
      SortedIsPermutation(s[..|s| - 1], le);
      InsertLastPermutes(Sorted(s[..|s| - 1], le), s[|s| - 1], le);
      assert s == s[..|s| - 1] + [s[|s| - 1]];
    }
  }

  /** Stability: the elements of any one key appear in their input order. */
  lemma {:induction false} SortedIsStable<T(!new)>(s: seq<T>, y: T, le: (T, T) -> bool)
    requires TotalPreorder(le)
    ensures KeyClass(Sorted(s, le), y, le) == KeyClass(s, y, le)
  {
    if |s| > 0 {
      SortedIsStable(s[..|s| - 1], y, le);
      InsertLastClass(Sorted(s[..|s| - 1], le), s[|s| - 1], y, le);
    }
  }

  /** Sorting one more element inserts it into the sorted prefix. */
  lemma SortedStep<T>(s: seq<T>, i: nat, le: (T, T) -> bool)
    requires i < |s|
    ensures Sorted(s[..i + 1], le) == InsertLast(Sorted(s[..i], le), s[i], le)
  {
    assert s[..i + 1][..i] == s[..i];
  }

  /**
   * Insertion sort in place: each element is shifted left past the
   * elements strictly above it, so equal keys keep their order.
   */
  method SortInPlace<T>(a: array<T>, le: (T, T) -> bool)
    modifies a
    ensures a[..] == Sorted(old(a[..]), le)
  {
    ghost var input := a[..];
    var i := 0;
    while i < a.Length
      invariant 0 <= i <= a.Length
      invariant a[..i] == Sorted(input[..i], le)
      invariant forall k :: i <= k < a.Length ==> a[k] == input[k]
    {
      ghost var done, next := a[..i], a[i];
      InsertAt(a, i, le);
      SortedStep(input, i, le);
      assert a[..i + 1] == InsertLast(done, next, le);
      i := i + 1;
    }
    assert input[..a.Length] == input;
  }

  /** One pass of the insertion sort: moves `a[i]` into place within `a[..i + 1]`. */
  method InsertAt<T>(a: array<T>, i: nat, le: (T, T) -> bool)
    requires i < a.Length
    modifies a
    ensures a[..i + 1] == InsertLast(old(a[..i]), old(a[i]), le)
    ensures forall k :: i < k < a.Length ==> a[k] == old(a[k])
  {
    var x := a[i];
    ghost var p := a[..i];
    var j := ShiftPast(a, i, x, le);
    InsertLastAt(p, j, x, le);
    a[j] := x;
    Splice(a[..i + 1], p, j, x);
  }

  /** A sequence that agrees with `p` around position `j` and holds `x` there is `p` with `x` spliced in. */
  lemma Splice<T>(q: seq<T>, p: seq<T>, j: nat, x: T)
    requires |q| == |p| + 1 && j <= |p|
    requires forall k :: 0 <= k < j ==> q[k] == p[k]
    requires q[j] == x
    requires forall k :: j < k < |q| ==> q[k] == p[k - 1]
    ensures q == p[..j] + [x] + p[j..]
  {
  }

  /**
   * Shifts the elements of `a[..i]` strictly above `x` one place right,
   * starting from `a[i - 1]`, and returns the gap left for `x`.
   */
  method ShiftPast<T>(a: array<T>, i: nat, x: T, le: (T, T) -> bool) returns (j: nat)
    requires i < a.Length
    modifies a
    ensures j <= i
    ensures j == 0 || le(old(a[j - 1]), x)
    ensures forall k :: j <= k < i ==> !le(old(a[k]), x)
    ensures forall k :: 0 <= k < j ==> a[k] == old(a[k])
    ensures forall k :: j < k <= i ==> a[k] == old(a[k - 1])
    ensures forall k :: i < k < a.Length ==> a[k] == old(a[k])
  {
    j := i;
    while j > 0 && !le(a[j - 1], x)
      invariant 0 <= j <= i
      invariant forall k :: 0 <= k < j ==> a[k] == old(a[k])
      invariant forall k :: j < k <= i ==> a[k] == old(a[k - 1])
      invariant forall k :: i < k < a.Length ==> a[k] == old(a[k])
      invariant forall k :: j <= k < i ==> !le(old(a[k]), x)
    {
      a[j] := a[j - 1];
      j := j - 1;
    }
  }

  /**
   * `InsertLast` puts `x` right after the first `j` elements when the
   * element before that point is not above `x` and all after it are.
   */
  lemma {:induction false} InsertLastAt<T>(p: seq<T>, j: nat, x: T, le: (T, T) -> bool)
    requires j <= |p|
    requires j == 0 || le(p[j - 1], x)
    requires forall k :: j <= k < |p| ==> !le(p[k], x)
    ensures InsertLast(p, x, le) == p[..j] + [x] + p[j..]
    decreases |p|
  {
    if j < |p| {
      var init := p[..|p| - 1];
      assert init[..j] == p[..j];
      InsertLastAt(init, j, x, le);
      assert p[j..] == init[j..] + [p[|p| - 1]];
    }
  }
}
