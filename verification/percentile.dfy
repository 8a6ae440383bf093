/**
 * Percentile by linear interpolation between the two order statistics that
 * bracket the rank's position in the sorted copy of the observations.
 */
module Percentiles {
  import opened Results
  import opened Order

  /** A percentile rank: an integer meant in [0,100] or a float meant in [0.0,1.0]. */
  datatype Rank = IntRank(k: int) | FloatRank(f: real)

  /** The range check, which depends on the kind of rank and not on its value. */
  predicate InRange(rank: Rank) {
    match rank
    case IntRank(k) => 0 <= k <= 100
    case FloatRank(f) => 0.0 <= f <= 1.0
  }

  /**
   * Validates the rank and turns it into a fraction. As in amtStats
   * `Statistics._percentile`, the division by 100 sits in the `else` of the
   * integer check, so a float rank that passed its own check is divided by
   * 100 as well.
   */
  function Normalize(rank: Rank): (r: Result<real>)
    ensures r.Success? <==> InRange(rank)
    ensures r.Failure? ==> r.error == RankOutOfRange
    ensures r.Success? ==> 0.0 <= r.value <= 1.0
    ensures r.Success? ==> (r.value == 1.0 <==> rank == IntRank(100))
    ensures r.Success? && rank.FloatRank? ==> r.value <= 0.01
    ensures r.Success? && rank.IntRank? ==> r.value == rank.k as real / 100.0
    ensures r.Success? && rank.FloatRank? ==> r.value == rank.f / 100.0
    ensures rank.IntRank? ==> r == NormalizeIntended(rank)
    ensures rank.FloatRank? && r.Success? ==> r.value == NormalizeIntended(rank).value / 100.0
  {
    match rank
    case FloatRank(f) =>
      if !(0.0 <= f <= 1.0) then Failure(RankOutOfRange) else Success(f / 100.0)
    case IntRank(k) =>
      if !(0 <= k <= 100) then Failure(RankOutOfRange) else Success(k as real / 100.0)
  }

  /**
   * The product `r * m` for a natural `m`, written as repeated addition so
   * that reasoning about positions stays linear; `ScaleIsProduct` shows that
   * it is the product.
   */
  function Scale(r: real, m: nat): real
  {
    if m == 0 then 0.0 else Scale(r, m - 1) + r
  }

  lemma {:induction false} ScaleIsProduct(r: real, m: nat)
    ensures Scale(r, m) == r * m as real
  {
    if m > 0 {
      ScaleIsProduct(r, m - 1);
      assert r * (m - 1) as real + r == r * m as real;
    }
  }

  /** A fraction in [0,1] scales `m` into [0,m], strictly below `m` unless it is 1. */
  lemma {:induction false} ScaleBounds(r: real, m: nat)
    requires 0.0 <= r <= 1.0
    ensures 0.0 <= Scale(r, m) <= m as real
    ensures r < 1.0 && m > 0 ==> Scale(r, m) < m as real
    ensures r == 1.0 ==> Scale(r, m) == m as real
    ensures r == 0.0 ==> Scale(r, m) == 0.0
  {
    if m > 0 {
      ScaleBounds(r, m - 1);
    }
  }

  /** A larger fraction gives a position at least as far along. */
  lemma {:induction false} ScaleMonotone(r1: real, r2: real, m: nat)
    requires r1 <= r2
    ensures Scale(r1, m) <= Scale(r2, m)
  {
    if m > 0 {
      ScaleMonotone(r1, r2, m - 1);
    }
  }

  /**
   * Reads the sorted values at `x.Floor` and `x.Floor + 1` and interpolates by
   * the fractional part of `x` (`x % 1` for a non-negative `x`). The upper
   * neighbour is read even when the fractional part is 0.
   */
  function Interpolate(s: seq<real>, x: real): (r: Result<real>)
    requires 0.0 <= x
    ensures r.Success? <==> x.Floor + 1 < |s|
    ensures r.Failure? ==> r.error == IndexOutOfRange
    ensures r.Success? && Sorted(s) ==> s[x.Floor] <= r.value <= s[x.Floor + 1]
  {
    var y := x.Floor;
    var z := x - y as real;
    if y + 1 < |s| then
      LerpBetween(s[y], s[y + 1], z);
      Success(Lerp(s[y], s[y + 1], z))
    else
      Failure(IndexOutOfRange)
  }

  /** The point a fraction `z` of the way from `a` to `b`. */
  function Lerp(a: real, b: real, z: real): real
  {
    a + z * (b - a)
  }

  /** For a fraction in [0,1], the point lies between the ends of a rising segment. */
  lemma LerpBetween(a: real, b: real, z: real)
    requires 0.0 <= z <= 1.0
    ensures a <= b ==> a <= Lerp(a, b, z) <= b
  {
    if a <= b {
      MultiplyMonotone(0.0, z, b - a);
      MultiplyMonotone(z, 1.0, b - a);
    }
  }

  /** The start of the segment is at fraction 0. */
  lemma LerpZero(a: real, b: real)
    ensures Lerp(a, b, 0.0) == a
  {
  }

  /** Halfway along the segment is the mean of its ends. */
  lemma LerpHalf(a: real, b: real)
    ensures Lerp(a, b, 0.5) == (a + b) / 2.0
  {
  }

  /** When `a` and `b` differ, the segment is at `a` only at its start. */
  lemma LerpAtStart(a: real, b: real, z: real)
    requires a != b && Lerp(a, b, z) == a
    ensures z == 0.0
  {
    var d := b - a;
    assert z * d == 0.0;
    assert z == (z * d) / d;
  }

  /**
   * Interpolation at position `rk * (n - 1)` of the normalised rank `rk`
   * among the `n` sorted values: it reads past the end exactly when `rk` is 1.
   */
  function InterpolateAt(s: seq<real>, rk: real): (r: Result<real>)
    requires Sorted(s) && |s| >= 2
    requires 0.0 <= rk <= 1.0
    ensures r.Success? <==> rk < 1.0
    ensures r.Failure? ==> r.error == IndexOutOfRange
    ensures r.Success? ==> s[0] <= r.value <= s[|s| - 1]
  {
    ScaleBounds(rk, |s| - 1);
    Interpolate(s, Scale(rk, |s| - 1))
  }

  /**
   * The percentile of the observations for `rank`. No data is an error; a
   * single observation is returned without looking at the rank; otherwise the
   * rank is validated, normalised and interpolated in the sorted copy.
   */
  function Percentile(values: seq<real>, rank: Rank): (r: Result<real>)
    ensures |values| == 0 ==> r == Failure(EmptyDataset)
    ensures |values| == 1 ==> r == Success(values[0])
    ensures |values| >= 2 ==> (r == Failure(RankOutOfRange) <==> !InRange(rank))
    ensures |values| >= 2 ==> (r == Failure(IndexOutOfRange) <==> rank == IntRank(100))
    ensures |values| >= 2 ==> (r.Success? <==> InRange(rank) && rank != IntRank(100))
    ensures r.Success? ==> Min(values) <= r.value <= Max(values)
  {
    if |values| == 0 then Failure(EmptyDataset)
    else if |values| == 1 then Success(values[0])
    else
      var rk :- Normalize(rank);
      InterpolateWithinData(values, rk);
      InterpolateAt(Sort(values), rk)
  }

  /** Interpolating in the sorted copy stays within the extrema of the data. */
  lemma InterpolateWithinData(values: seq<real>, rk: real)
    requires |values| >= 2
    requires 0.0 <= rk <= 1.0
    ensures var r := InterpolateAt(Sort(values), rk);
            r.Success? ==> Min(values) <= r.value <= Max(values)
  {
    MinMaxOfSort(values);
  }

  /** For two or more values and a valid rank, the percentile is the interpolation at the normalised rank. */
  lemma PercentileUnfold(values: seq<real>, rank: Rank, rk: real)
    requires |values| >= 2
    requires Normalize(rank) == Success(rk)
    ensures 0.0 <= rk <= 1.0
    ensures Percentile(values, rank) == InterpolateAt(Sort(values), rk)
  {
  }

  /**
   * Below the last position, interpolation at `rk` is the segment between the
   * two bracketing order statistics, and is the lower one exactly when the
   * position is a whole number (when the two differ).
   */
  lemma InterpolateAtFormula(s: seq<real>, rk: real)
    requires Sorted(s) && |s| >= 2
    requires 0.0 <= rk < 1.0
    ensures var x := Scale(rk, |s| - 1);
            var y := x.Floor;
            var v := InterpolateAt(s, rk).value;
            && 0 <= y && y + 1 < |s|
            && v == Lerp(s[y], s[y + 1], x - y as real)
            && s[y] <= v <= s[y + 1]
            && (x == y as real ==> v == s[y])
            && (v == s[y] && s[y] < s[y + 1] ==> x == y as real)
  {
    ScaleBounds(rk, |s| - 1);
    var x := Scale(rk, |s| - 1);
    var y := x.Floor;
    var v := InterpolateAt(s, rk).value;
    assert v == Lerp(s[y], s[y + 1], x - y as real);
    if x == y as real {
      LerpZero(s[y], s[y + 1]);
    }
    if v == s[y] && s[y] < s[y + 1] {
      LerpAtStart(s[y], s[y + 1], x - y as real);
    }
  }

  /** The position `rk * m` among the sorted values, by repeated addition. */
  function Position(rk: real, m: nat): (x: real)
    ensures x == rk * m as real
  {
    ScaleIsProduct(rk, m);
    Scale(rk, m)
  }

  /**
   * With a usable rank, normalised to `rk`, the percentile is the
   * interpolation at position `x = rk * (n - 1)` between the two bracketing
   * order statistics of the sorted copy: it lies between them, and it is the
   * lower one when `x` is whole and (when the two differ) only then.
   */
  lemma PercentileInterpolates(values: seq<real>, rank: Rank, rk: real)
    requires |values| >= 2
    requires Normalize(rank) == Success(rk)
    requires rank != IntRank(100)
    ensures rk < 1.0
    ensures var s := Sort(values);
            var x := Position(rk, |s| - 1);
            var y := x.Floor;
            var v := Percentile(values, rank).value;
            && 0 <= y && y + 1 < |s|
            && v == Lerp(s[y], s[y + 1], x - y as real)
            && s[y] <= v <= s[y + 1]
            && (x == y as real ==> v == s[y])
            && (v == s[y] && s[y] < s[y + 1] ==> x == y as real)
  {
    assert Position(rk, |values| - 1) == Scale(rk, |values| - 1);
    PercentileAtPosition(values, rank, rk);
  }

  /** `PercentileInterpolates` with the position written as repeated addition. */
  lemma PercentileAtPosition(values: seq<real>, rank: Rank, rk: real)
    requires |values| >= 2
    requires Normalize(rank) == Success(rk)
    requires rank != IntRank(100)
    ensures rk < 1.0 && 0.0 <= Scale(rk, |values| - 1)
    ensures var s := Sort(values);
            var x := Scale(rk, |s| - 1);
            var y := x.Floor;
            var v := Percentile(values, rank).value;
            && 0 <= y && y + 1 < |s|
            && v == Lerp(s[y], s[y + 1], x - y as real)
            && s[y] <= v <= s[y + 1]
            && (x == y as real ==> v == s[y])
            && (v == s[y] && s[y] < s[y + 1] ==> x == y as real)
  {
    var s := Sort(values);
    InterpolateAtFormula(s, rk);
    PercentileUnfold(values, rank, rk);
  }

  /** Half of `m` by repeated addition of one half. */
  lemma {:induction false} ScaleHalf(m: nat)
    ensures Scale(0.5, m) == m as real / 2.0
  {
    if m > 0 {
      ScaleHalf(m - 1);
    }
  }

  /** Interpolating halfway along the sorted values gives their middle. */
  lemma InterpolateAtHalf(s: seq<real>)
    requires Sorted(s) && |s| >= 2
    ensures InterpolateAt(s, 0.5) == Success(Middle(s))
  {
    var n := |s|;
    var mid := n / 2;
    var x := Scale(0.5, n - 1);
    ScaleHalf(n - 1);
    assert InterpolateAt(s, 0.5) == Interpolate(s, x);
    if n % 2 == 1 {
      assert n - 1 == 2 * mid;
      assert (n - 1) as real == 2.0 * mid as real;
      assert x == mid as real;
      InterpolateAtPoint(s, x, mid, 0.0);
      LerpZero(s[mid], s[mid + 1]);
    } else {
      assert n - 1 == 2 * mid - 1;
      assert (n - 1) as real == 2.0 * mid as real - 1.0;
      assert x == (mid - 1) as real + 0.5;
      InterpolateAtPoint(s, x, mid - 1, 0.5);
      LerpHalf(s[mid - 1], s[mid]);
    }
  }

  /** Interpolation at a position `y + z` with `y` whole and `z` in [0,1). */
  lemma InterpolateAtPoint(s: seq<real>, x: real, y: int, z: real)
    requires 0 <= y && y + 1 < |s|
    requires 0.0 <= z < 1.0
    requires x == y as real + z
    ensures 0.0 <= x
    ensures Interpolate(s, x) == Success(Lerp(s[y], s[y + 1], z))
  {
    assert x.Floor == y;
  }

  /** With two or more values, the percentile of a rank that normalises to one half is the middle of the sorted copy. */
  lemma PercentileAtHalf(values: seq<real>, rank: Rank)
    requires |values| >= 2
    requires Normalize(rank) == Success(0.5)
    ensures Percentile(values, rank) == Success(Middle(Sort(values)))
  {
    PercentileUnfold(values, rank, 0.5);
    InterpolateAtHalf(Sort(values));
  }

  /** The percentile does not depend on the order in which values arrived. */
  lemma PercentileOrderFree(a: seq<real>, b: seq<real>, rank: Rank)
    requires multiset(a) == multiset(b)
    ensures Percentile(a, rank) == Percentile(b, rank)
  {
    assert |a| == |multiset(a)| == |multiset(b)| == |b|;
    SortOfPermutation(a, b);
    if |a| == 1 {
      SortOfSorted(a);
      SortOfSorted(b);
    }
  }

  /** Interpolated values grow with the position. */
  lemma InterpolateMonotone(s: seq<real>, x1: real, x2: real)
    requires Sorted(s)
    requires 0.0 <= x1 <= x2
    requires x2.Floor + 1 < |s|
    ensures x1.Floor + 1 < |s|
    ensures Interpolate(s, x1).value <= Interpolate(s, x2).value
  {
    var y1, y2 := x1.Floor, x2.Floor;
    assert y1 <= y2;
    var v1, v2 := Interpolate(s, x1).value, Interpolate(s, x2).value;
    if y1 == y2 {
      var z1, z2 := x1 - y1 as real, x2 - y2 as real;
      assert v1 == Lerp(s[y1], s[y1 + 1], z1);
      assert v2 == Lerp(s[y1], s[y1 + 1], z2);
      LerpMonotone(s[y1], s[y1 + 1], z1, z2);
    } else {
      assert s[y1 + 1] <= s[y2];
      assert v1 <= s[y1 + 1];
      assert s[y2] <= v2;
    }
  }

  /** Further along a rising segment is no lower. */
  lemma LerpMonotone(a: real, b: real, z1: real, z2: real)
    requires a <= b
    requires 0.0 <= z1 <= z2 <= 1.0
    ensures Lerp(a, b, z1) <= Lerp(a, b, z2)
  {
    MultiplyMonotone(z1, z2, b - a);
  }

  /** Multiplying by a non-negative factor keeps the order. */
  lemma MultiplyMonotone(a: real, b: real, d: real)
    requires a <= b && 0.0 <= d
    ensures a * d <= b * d
  {
    assert b * d - a * d == (b - a) * d;
  }

  /** Interpolation at a larger normalised rank never gives a smaller value. */
  lemma InterpolateAtMonotone(s: seq<real>, r1: real, r2: real)
    requires Sorted(s) && |s| >= 2
    requires 0.0 <= r1 <= r2 < 1.0
    ensures InterpolateAt(s, r1).value <= InterpolateAt(s, r2).value
  {
    var m := |s| - 1;
    ScaleMonotone(r1, r2, m);
    ScaleBounds(r1, m);
    ScaleBounds(r2, m);
    InterpolateMonotone(s, Scale(r1, m), Scale(r2, m));
  }

  /** A higher integer rank never gives a lower percentile. */
  lemma PercentileMonotone(values: seq<real>, j: int, k: int)
    requires |values| >= 1
    requires 0 <= j <= k < 100
    ensures Percentile(values, IntRank(j)).Success?
    ensures Percentile(values, IntRank(k)).Success?
    ensures Percentile(values, IntRank(j)).value <= Percentile(values, IntRank(k)).value
  {
    if |values| >= 2 {
      var rj, rk := j as real / 100.0, k as real / 100.0;
      PercentileUnfold(values, IntRank(j), rj);
      PercentileUnfold(values, IntRank(k), rk);
      InterpolateAtMonotone(Sort(values), rj, rk);
    }
  }

  /** Interpolation at position 0 is the first sorted value. */
  lemma InterpolateAtZero(s: seq<real>)
    requires Sorted(s) && |s| >= 2
    ensures InterpolateAt(s, 0.0) == Success(s[0])
  {
    ScaleBounds(0.0, |s| - 1);
  }

  /** Rank 0 (of either kind) is the smallest observation. */
  lemma PercentileRankZero(values: seq<real>)
    requires |values| >= 1
    ensures Percentile(values, IntRank(0)) == Success(Min(values))
    ensures Percentile(values, FloatRank(0.0)) == Success(Min(values))
  {
    if |values| == 1 {
      assert Min(values) == values[0];
    } else {
      PercentileUnfold(values, IntRank(0), 0.0);
      PercentileUnfold(values, FloatRank(0.0), 0.0);
      FirstOfSortIsMin(values);
    }
  }

  /** Interpolating the sorted copy at position 0 gives the smallest observation. */
  lemma FirstOfSortIsMin(values: seq<real>)
    requires |values| >= 2
    ensures InterpolateAt(Sort(values), 0.0) == Success(Min(values))
  {
    InterpolateAtZero(Sort(values));
    MinMaxOfSort(values);
  }

  // ----- Corrected reading of the rank handling

  /** The rank as a fraction, with a float rank taken as it is. */
  function NormalizeIntended(rank: Rank): (r: Result<real>)
    ensures r.Success? <==> InRange(rank)
    ensures r.Failure? ==> r.error == RankOutOfRange
    ensures r.Success? ==> 0.0 <= r.value <= 1.0
  {
    match rank
    case FloatRank(f) =>
      if !(0.0 <= f <= 1.0) then Failure(RankOutOfRange) else Success(f)
    case IntRank(k) =>
      if !(0 <= k <= 100) then Failure(RankOutOfRange) else Success(k as real / 100.0)
  }

  /**
   * Interpolation at the position of `rk` that stops at the last value
   * instead of reading past it.
   */
  function InterpolateIntendedAt(s: seq<real>, rk: real): (r: real)
    requires Sorted(s) && |s| >= 2
    requires 0.0 <= rk <= 1.0
    ensures s[0] <= r <= s[|s| - 1]
    ensures rk < 1.0 ==> InterpolateAt(s, rk) == Success(r)
    ensures rk == 1.0 ==> r == s[|s| - 1]
  {
    if rk < 1.0 then
      InterpolateAt(s, rk).value
    else
      s[|s| - 1]
  }

  /** The percentile as evidently intended: every in-range rank succeeds. */
  function PercentileIntended(values: seq<real>, rank: Rank): (r: Result<real>)
    ensures |values| == 0 ==> r == Failure(EmptyDataset)
    ensures |values| == 1 ==> r == Success(values[0])
    ensures |values| >= 2 ==> (r.Success? <==> InRange(rank))
    ensures |values| >= 2 && r.Failure? ==> r.error == RankOutOfRange
    ensures r.Success? ==> Min(values) <= r.value <= Max(values)
  {
    if |values| == 0 then Failure(EmptyDataset)
    else if |values| == 1 then Success(values[0])
    else
      var rk :- NormalizeIntended(rank);
      MinMaxOfSort(values);
      Success(InterpolateIntendedAt(Sort(values), rk))
  }

  /** Both ends of either rank scale give the extrema. */
  lemma IntendedEndpoints(values: seq<real>)
    requires |values| >= 1
    ensures PercentileIntended(values, IntRank(0)) == Success(Min(values))
    ensures PercentileIntended(values, FloatRank(0.0)) == Success(Min(values))
    ensures PercentileIntended(values, IntRank(100)) == Success(Max(values))
    ensures PercentileIntended(values, FloatRank(1.0)) == Success(Max(values))
  {
    if |values| == 1 {
      assert Min(values) == values[0] && Max(values) == values[0];
    } else {
      IntendedUnfold(values, IntRank(0), 0.0);
      IntendedUnfold(values, FloatRank(0.0), 0.0);
      IntendedUnfold(values, IntRank(100), 1.0);
      IntendedUnfold(values, FloatRank(1.0), 1.0);
      FirstOfSortIsMin(values);
      MinMaxOfSort(values);
    }
  }

  /** For two or more values and a valid rank, the corrected percentile interpolates at the normalised rank. */
  lemma IntendedUnfold(values: seq<real>, rank: Rank, rk: real)
    requires |values| >= 2
    requires NormalizeIntended(rank) == Success(rk)
    ensures 0.0 <= rk <= 1.0
    ensures PercentileIntended(values, rank) == Success(InterpolateIntendedAt(Sort(values), rk))
  {
  }

  /** Integer rank `k` and float rank `k/100` give the same percentile. */
  lemma IntendedScalesAgree(values: seq<real>, k: int)
    requires 0 <= k <= 100
    ensures PercentileIntended(values, FloatRank(k as real / 100.0))
         == PercentileIntended(values, IntRank(k))
  {
  }

  /** Below 100 the correction changes nothing for integer ranks. */
  lemma IntendedAgreesBelowHundred(values: seq<real>, k: int)
    requires 0 <= k < 100
    ensures PercentileIntended(values, IntRank(k)) == Percentile(values, IntRank(k))
  {
  }

  /** A valid float rank `f` acts as the rank `f / 100` of the corrected percentile. */
  lemma FloatRankIsHundredth(values: seq<real>, f: real)
    requires 0.0 <= f <= 1.0
    ensures Percentile(values, FloatRank(f)) == PercentileIntended(values, FloatRank(f / 100.0))
  {
    if |values| >= 2 {
      IntendedUnfold(values, FloatRank(f / 100.0), f / 100.0);
      PercentileUnfold(values, FloatRank(f), f / 100.0);
    }
  }

  /** `Statistics._percentile` divides a valid float rank by 100 a second time: 0.5 acts as 0.005. */
  lemma FloatRankDividedTwice()
    ensures Percentile([0.0, 100.0], FloatRank(0.5)) == Success(0.5)
    ensures PercentileIntended([0.0, 100.0], FloatRank(0.5)) == Success(50.0)
  {
    var s := [0.0, 100.0];
    SortOfSorted(s);
    assert Scale(0.005, 1) == 0.005;
    assert Scale(0.5, 1) == 0.5;
    InterpolateAtFormula(s, 0.005);
    InterpolateAtFormula(s, 0.5);
  }

  /** `Statistics._percentile` reads one past the end of the sorted copy for integer rank 100. */
  lemma RankHundredReadsPastEnd()
    ensures Percentile([1.0, 2.0], IntRank(100)) == Failure(IndexOutOfRange)
    ensures PercentileIntended([1.0, 2.0], IntRank(100)) == Success(2.0)
  {
    SortOfSorted([1.0, 2.0]);
  }
}
