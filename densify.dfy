/**
 * Densifying a forecast onto a 10-minute grid.
 *
 * Both backend functions run the same loop over neighbouring pairs
 * `(a, b)` of a time-sorted series: emit `a`, then step `t` from `a.ts`
 * by ten minutes while `t + 10 min < b.ts`, emitting at each step a row
 * whose speed is interpolated linearly between `a` and `b` and which
 * copies `a`'s remaining fields; after the pairs, emit the last entry.
 * The remaining fields are the type parameter `P`.
 *
 * `Densified` is the reference definition of the output; `DensifyTenMinutes`
 * is the loop, proved to compute it; the lemmas state what the output is.
 */
module Densify {

  import StableSort

  /** Ten minutes, in seconds. */
  const Step: int := 600

  /** A forecast row: time (wall-clock seconds), speed in knots, other fields. */
  datatype Sample<P> = Sample(ts: int, knots: real, carry: P)

  /**
   * The row at time `t` between `a` and `b`: speed `a + frac * (b - a)`
   * with `frac = (t - a.ts) / (b.ts - a.ts)`, other fields from `a`.
   */
  function Interpolate<P>(a: Sample<P>, b: Sample<P>, t: int): Sample<P>
    requires a.ts < b.ts
  {
    Sample(t, a.knots + Frac(a, b, t) * (b.knots - a.knots), a.carry)
  }

  /** How far `t` lies from `a` towards `b`, as a fraction of the pair's span. */
  function Frac<P>(a: Sample<P>, b: Sample<P>, t: int): real
    requires a.ts < b.ts
  {
    (t - a.ts) as real / (b.ts - a.ts) as real
  }

  /** The rows the inner loop emits once `t` has reached `t`. */
  function FillFrom<P>(a: Sample<P>, b: Sample<P>, t: int): seq<Sample<P>>
    requires a.ts <= t
    decreases b.ts - t
  {
    if t + Step < b.ts then [Interpolate(a, b, t + Step)] + FillFrom(a, b, t + Step) else []
  }

  /** All rows emitted for the pair `(a, b)`: `a` itself, then the fill. */
  function Segment<P>(a: Sample<P>, b: Sample<P>): seq<Sample<P>> {
    [a] + FillFrom(a, b, a.ts)
  }

  /** The densified series. */
  function Densified<P>(s: seq<Sample<P>>): seq<Sample<P>>
    decreases |s|
  {
    if |s| == 0 then []
    else if |s| == 1 then [s[0]]
    else Segment(s[0], s[1]) + Densified(s[1..])
  }

  /** The row times, in order (`forecast_times`). */
  function Times<P>(s: seq<Sample<P>>): (r: seq<int>)
    ensures |r| == |s|
    ensures forall i :: 0 <= i < |s| ==> r[i] == s[i].ts
  {
    seq(|s|, i requires 0 <= i < |s| => s[i].ts)
  }

  /** The sort key of both backends: `sort(key=lambda p: p["ts"])`. */
  predicate ByTime<P>(x: Sample<P>, y: Sample<P>) {
    x.ts <= y.ts
  }

  lemma ByTimeIsTotalPreorder<P(!new)>()
    ensures StableSort.TotalPreorder(ByTime<P>)
  {
  }

  /** The in-place sort of the collected rows, done on an array copy of them. */
  method SortByTime<P>(rows: seq<Sample<P>>) returns (sorted: seq<Sample<P>>)
    ensures sorted == StableSort.Sorted(rows, ByTime)
  {
    var a := new Sample<P>[|rows|](i requires 0 <= i < |rows| => rows[i]);
    assert a[..] == rows;
    StableSort.SortInPlace(a, ByTime);
    sorted := a[..];
  }

  /** The sorted rows are the input rows, each as often, in time order, equal times in input order. */
  lemma SortByTimeOrders<P(!new)>(rows: seq<Sample<P>>, y: Sample<P>)
    ensures multiset(StableSort.Sorted(rows, ByTime)) == multiset(rows)
    ensures TimesNonDecreasing(StableSort.Sorted(rows, ByTime))
    ensures StableSort.KeyClass(StableSort.Sorted(rows, ByTime), y, ByTime) == StableSort.KeyClass(rows, y, ByTime)
  {
    ByTimeIsTotalPreorder<P>();
    StableSort.SortedIsPermutation(rows, ByTime);
    StableSort.SortedIsOrdered(rows, ByTime);
    StableSort.SortedIsStable(rows, y, ByTime);
  }

  /** The pair loop: each pair contributes its first row and its fill; then the last row. */
  method DensifyTenMinutes<P>(raw: seq<Sample<P>>) returns (out: seq<Sample<P>>)
    ensures out == Densified(raw)
  {
    out := [];
    var i := 0;
    while i + 1 < |raw|
      invariant 0 <= i <= |raw|
      invariant |raw| > 0 ==> i < |raw|
      invariant out + Densified(raw[i..]) == Densified(raw)
    {
      var a, b := raw[i], raw[i + 1];
      var fill := FillSteps(a, b);
      DensifiedStep(raw, i);
      out := out + ([a] + fill);
      i := i + 1;
    }
    if |raw| > 0 {
      assert raw[i..] == [raw[|raw| - 1]];
      out := out + [raw[|raw| - 1]];
    }
  }

  /** Unfolding `Densified` at a pair. */
  lemma DensifiedStep<P>(raw: seq<Sample<P>>, i: nat)
    requires i + 1 < |raw|
    ensures Densified(raw[i..]) == Segment(raw[i], raw[i + 1]) + Densified(raw[i + 1..])
  {
    assert raw[i..][1..] == raw[i + 1..];
    assert raw[i..][0] == raw[i] && raw[i..][1] == raw[i + 1];
  }

  /** The ten-minute loop for one pair: the interpolated rows strictly between `a` and `b`. */
  method FillSteps<P>(a: Sample<P>, b: Sample<P>) returns (fill: seq<Sample<P>>)
    ensures fill == FillFrom(a, b, a.ts)
  {
    fill := [];
    var t := a.ts;
    while t + Step < b.ts
      invariant a.ts <= t
      invariant fill + FillFrom(a, b, t) == FillFrom(a, b, a.ts)
      decreases b.ts - t
    {
      ghost var rest := FillFrom(a, b, t);
      t := t + Step;
      var frac := (t - a.ts) as real / (b.ts - a.ts) as real;
      assert rest == [Interpolate(a, b, t)] + FillFrom(a, b, t);
      var row := Sample(t, a.knots + frac * (b.knots - a.knots), a.carry);
      assert row == Interpolate(a, b, t);
      fill := fill + [row];
    }
  }

  // ---------------------------------------------------------------------
  // The fill between one pair

  lemma {:induction false} FillAt<P>(a: Sample<P>, b: Sample<P>, t: int, k: nat)
    requires a.ts <= t && k < |FillFrom(a, b, t)|
    ensures t + Step * (k + 1) < b.ts
    ensures FillFrom(a, b, t)[k] == Interpolate(a, b, t + Step * (k + 1))
    decreases k
  {
    if k > 0 {
      FillAt(a, b, t + Step, k - 1);
    }
  }

  /** The fill holds one row per ten-minute step strictly before `b`. */
  lemma {:induction false} FillLength<P>(a: Sample<P>, b: Sample<P>, t: int, k: nat)
    requires a.ts <= t
    ensures k < |FillFrom(a, b, t)| <==> t + Step * (k + 1) < b.ts
    decreases k
  {
    if k > 0 && t + Step < b.ts {
      FillLength(a, b, t + Step, k - 1);
    }
  }

  /** An interpolated speed is a proper mix of the two neighbours' speeds. */
  lemma InterpolateBetween<P>(a: Sample<P>, b: Sample<P>, t: int)
    requires a.ts < t < b.ts
    ensures Interpolate(a, b, t).ts == t && Interpolate(a, b, t).carry == a.carry
    ensures 0.0 < Frac(a, b, t) < 1.0
    ensures Interpolate(a, b, t).knots == a.knots + Frac(a, b, t) * (b.knots - a.knots)
    ensures Min(a.knots, b.knots) <= Interpolate(a, b, t).knots <= Max(a.knots, b.knots)
  {
    var num, den := (t - a.ts) as real, (b.ts - a.ts) as real;
    assert 0.0 < num < den;
    FractionBounds(num, den);
    MixBetween(a.knots, b.knots, Frac(a, b, t));
  }

  /** A quotient of a smaller by a larger positive number lies strictly between 0 and 1. */
  lemma FractionBounds(num: real, den: real)
    requires 0.0 < num < den
    ensures 0.0 < num / den < 1.0
  {
    var q := num / den;
    assert q * den == num;
    if q <= 0.0 {
      MulNonNeg(-q, den);
    }
    if q >= 1.0 {
      MulNonNeg(q - 1.0, den);
    }
  }

  /** `x + f * (y - x)` for `f` strictly between 0 and 1 lies between `x` and `y`. */
  lemma MixBetween(x: real, y: real, f: real)
    requires 0.0 < f < 1.0
    ensures Min(x, y) <= x + f * (y - x) <= Max(x, y)
  {
    var d, g := y - x, 1.0 - f;
    assert d - f * d == g * d;
    if d >= 0.0 {
      MulNonNeg(f, d);
      MulNonNeg(g, d);
    } else {
      MulNonNeg(f, -d);
      MulNonNeg(g, -d);
      assert f * (-d) == -(f * d) && g * (-d) == -(g * d);
    }
  }

  lemma MulNonNeg(p: real, q: real)
    requires p >= 0.0 && q >= 0.0
    ensures p * q >= 0.0
  {
  }

  function Min(x: real, y: real): real { if x <= y then x else y }
  function Max(x: real, y: real): real { if x <= y then y else x }

  // ---------------------------------------------------------------------
  // Where the original rows end up

  /** The index in `Densified(s)` at which `s[j]` is emitted. */
  function Position<P>(s: seq<Sample<P>>, j: nat): nat
    requires j < |s|
    decreases j
  {
    if j == 0 then 0 else |Segment(s[0], s[1])| + Position(s[1..], j - 1)
  }

  /** The output is empty exactly when the input is; it starts and ends with the input's first and last rows. */
  lemma {:induction false} DensifiedEnds<P>(s: seq<Sample<P>>)
    ensures |Densified(s)| == 0 <==> |s| == 0
    ensures |s| > 0 ==> Densified(s)[0] == s[0]
    ensures |s| > 0 ==> Densified(s)[|Densified(s)| - 1] == s[|s| - 1]
    ensures |s| > 0 ==> |Densified(s)| == Position(s, |s| - 1) + 1
    decreases |s|
  {
    if |s| >= 2 {
      DensifiedEnds(s[1..]);
    }
  }

  /** Every input row is emitted, at its own position, and positions strictly increase. */
  lemma {:induction false} OriginalsKept<P>(s: seq<Sample<P>>, j: nat)
    requires j < |s|
    ensures Position(s, j) < |Densified(s)|
    ensures Densified(s)[Position(s, j)] == s[j]
    ensures j + 1 < |s| ==> Position(s, j) < Position(s, j + 1)
    decreases j
  {
    DensifiedEnds(s);
    if j > 0 {
      OriginalsKept(s[1..], j - 1);
    }
  }

  /**
   * Between the positions of `s[j]` and `s[j + 1]` lie only rows made by
   * interpolation: at `s[j].ts + 10 min * k` for k >= 1, strictly before
   * `s[j + 1].ts`, with `s[j]`'s other fields and a speed that mixes the
   * two neighbours' speeds.
   */
  lemma {:induction false} BetweenOriginals<P>(s: seq<Sample<P>>, j: nat, p: nat)
    requires j + 1 < |s| && Position(s, j) < p < Position(s, j + 1)
    ensures p < |Densified(s)|
    ensures s[j].ts < s[j + 1].ts
    ensures Densified(s)[p] == Interpolate(s[j], s[j + 1], s[j].ts + Step * (p - Position(s, j)))
    ensures s[j].ts < Densified(s)[p].ts < s[j + 1].ts
    decreases j
  {
    OriginalsKept(s, j + 1);
    var seg := Segment(s[0], s[1]);
    if j == 0 {
      FillAt(s[0], s[1], s[0].ts, p - 1);
      assert Densified(s)[p] == seg[p];
    } else {
      BetweenOriginals(s[1..], j - 1, p - |seg|);
      assert Densified(s)[p] == Densified(s[1..])[p - |seg|];
    }
  }

  // ---------------------------------------------------------------------
  // Order and gaps

  /**
   * Consecutive rows are at most ten minutes apart and never go back in
   * time; with `strict`, they also never repeat a time.
   */
  ghost predicate Chain<P>(s: seq<Sample<P>>, strict: bool) {
    forall i :: 0 <= i < |s| - 1 ==>
      (if strict then s[i].ts < s[i + 1].ts else s[i].ts <= s[i + 1].ts) && s[i + 1].ts <= s[i].ts + Step
  }

  ghost predicate TimesNonDecreasing<P>(s: seq<Sample<P>>) {
    forall i, j :: 0 <= i < j < |s| ==> s[i].ts <= s[j].ts
  }

  ghost predicate TimesIncreasing<P>(s: seq<Sample<P>>) {
    forall i, j :: 0 <= i < j < |s| ==> s[i].ts < s[j].ts
  }

  lemma {:induction false} FillChain<P>(a: Sample<P>, b: Sample<P>, t: int, head: Sample<P>)
    requires a.ts <= t < b.ts && head.ts == t
    ensures Chain([head] + FillFrom(a, b, t) + [b], true)
    decreases b.ts - t
  {
    if t + Step < b.ts {
      var next := Interpolate(a, b, t + Step);
      FillChain(a, b, t + Step, next);
      assert [head] + FillFrom(a, b, t) + [b] == [head] + ([next] + FillFrom(a, b, t + Step) + [b]);
    }
  }

  lemma ChainJoin<P>(x: seq<Sample<P>>, y: seq<Sample<P>>, strict: bool)
    requires |y| > 0 && Chain(x + [y[0]], strict) && Chain(y, strict)
    ensures Chain(x + y, strict)
  {
    var xy := x + y;
    forall i | 0 <= i < |xy| - 1
      ensures (if strict then xy[i].ts < xy[i + 1].ts else xy[i].ts <= xy[i + 1].ts) && xy[i + 1].ts <= xy[i].ts + Step
    {
      if i < |x| {
        assert xy[i] == (x + [y[0]])[i] && xy[i + 1] == (x + [y[0]])[i + 1];
      } else {
        assert xy[i] == y[i - |x|] && xy[i + 1] == y[i - |x| + 1];
      }
    }
  }

  /**
   * On an input sorted by time, consecutive output rows are between 0 and
   * 10 minutes apart; on a strictly increasing input, strictly increasing.
   */
  lemma {:induction false} DensifiedChain<P>(s: seq<Sample<P>>, strict: bool)
    requires forall i :: 0 <= i < |s| - 1 ==> (if strict then s[i].ts < s[i + 1].ts else s[i].ts <= s[i + 1].ts)
    ensures Chain(Densified(s), strict)
    decreases |s|
  {
    if |s| >= 2 {
      var a, b := s[0], s[1];
      DensifiedChain(s[1..], strict);
      DensifiedEnds(s[1..]);
      if a.ts < b.ts {
        FillChain(a, b, a.ts, a);
      } else {
        assert FillFrom(a, b, a.ts) == [];
      }
      ChainJoin(Segment(a, b), Densified(s[1..]), strict);
    }
  }

  lemma {:induction false} ChainOrders<P>(s: seq<Sample<P>>, strict: bool)
    requires Chain(s, strict)
    ensures TimesNonDecreasing(s)
    ensures strict ==> TimesIncreasing(s)
    decreases |s|
  {
    if |s| >= 2 {
      ChainOrders(s[1..], strict);
      forall j | 0 < j < |s| ensures s[0].ts <= s[j].ts && (strict ==> s[0].ts < s[j].ts) {
        assert s[1..][0] == s[1] && s[1..][j - 1] == s[j];
      }
      forall i, j | 0 <= i < j < |s| ensures s[i].ts <= s[j].ts && (strict ==> s[i].ts < s[j].ts) {
        if i > 0 {
          assert s[1..][i - 1] == s[i] && s[1..][j - 1] == s[j];
        }
      }
    }
  }

  /** On a time-sorted input whose times lie in `[lo, hi)`, so do all output times. */
  lemma DensifiedWithin<P>(s: seq<Sample<P>>, lo: int, hi: int)
    requires TimesNonDecreasing(s)
    requires forall j :: 0 <= j < |s| ==> lo <= s[j].ts < hi
    ensures forall q :: 0 <= q < |Densified(s)| ==> lo <= Densified(s)[q].ts < hi
  {
    var out := Densified(s);
    DensifiedChain(s, false);
    ChainOrders(out, false);
    DensifiedEnds(s);
    forall q | 0 <= q < |out| ensures lo <= out[q].ts < hi {
      assert out[0].ts <= out[q].ts <= out[|out| - 1].ts;
    }
  }

  /**
   * On a strictly increasing input, `s[j]` is the only output row at
   * `s[j].ts`; so every input row appears exactly once.
   */
  lemma OriginalsOnce<P>(s: seq<Sample<P>>, j: nat, p: nat)
    requires forall i :: 0 <= i < |s| - 1 ==> s[i].ts < s[i + 1].ts
    requires j < |s| && p < |Densified(s)| && Densified(s)[p].ts == s[j].ts
    ensures p == Position(s, j)
  {
    DensifiedChain(s, true);
    ChainOrders(Densified(s), true);
    OriginalsKept(s, j);
  }

  /** Hourly input rows each grow into six rows; the last stays alone. */
  lemma {:induction false} HourlyLength<P>(s: seq<Sample<P>>)
    requires forall i :: 0 <= i < |s| - 1 ==> s[i + 1].ts == s[i].ts + 3600
    ensures |s| > 0 ==> |Densified(s)| == 6 * (|s| - 1) + 1
    decreases |s|
  {
    if |s| >= 2 {
      HourlyLength(s[1..]);
      var a, b := s[0], s[1];
      FillLength(a, b, a.ts, 4);
      FillLength(a, b, a.ts, 5);
    }
  }
}
