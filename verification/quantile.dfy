/**
 * Quartiles by the median-of-halves method: the median of the sorted data,
 * and the medians of its lower and upper halves.
 */
module Quantiles {
  import opened Results
  import opened Order
  import opened Percentiles

  /**
   * The quartile chosen by `which`: 1 is the median of the lower half of the
   * sorted data, 3 the median of its upper half, and any other selector the
   * median itself. With an odd count the middle value belongs to the upper
   * half. No data is an error; a single value is returned whatever the
   * selector.
   */
  function Quantile(values: seq<real>, which: int): (r: Result<real>)
    decreases |values|
    ensures r.Failure? <==> |values| == 0
    ensures r.Failure? ==> r.error == EmptyDataset
    ensures |values| == 1 ==> r == Success(values[0])
    ensures r.Success? ==> Min(values) <= r.value <= Max(values)
  {
    if |values| == 0 then Failure(EmptyDataset)
    else if |values| == 1 then Success(values[0])
    else
      var s := Sort(values);
      var mid := |s| / 2;
      SortKeepsElements(values);
      if which == 1 then
        var q := Quantile(s[..mid], 2);
        PartWithin(values, s[..mid], q.value);
        q
      else if which == 3 then
        var q := Quantile(s[mid..], 2);
        PartWithin(values, s[mid..], q.value);
        q
      else
        MiddleWithin(values, s);
        Success(Middle(s))
  }

  /** The middle of values drawn from the data lies within the extrema of the data. */
  lemma MiddleWithin(values: seq<real>, s: seq<real>)
    requires |values| >= 1 && |s| >= 1
    requires forall x :: x in s ==> x in values
    ensures Min(values) <= Middle(s) <= Max(values)
  {
    var mid := |s| / 2;
    assert s[mid] in s;
    assert s[(|s| - 1) / 2] in s;
  }

  /** The sorted copy holds exactly the values of the data. */
  lemma SortKeepsElements(values: seq<real>)
    ensures forall x :: x in Sort(values) <==> x in values
  {
    var s := Sort(values);
    assert forall x :: x in s <==> x in multiset(s);
  }

  /** A value within the extrema of a part of the data is within the extrema of the whole. */
  lemma PartWithin(values: seq<real>, part: seq<real>, v: real)
    requires |part| > 0
    requires forall x :: x in part ==> x in values
    requires Min(part) <= v <= Max(part)
    ensures Min(values) <= v <= Max(values)
  {
    assert Min(part) in values;
    assert Max(part) in values;
  }

  /** The quartiles do not depend on the order in which values arrived. */
  lemma QuantileOrderFree(a: seq<real>, b: seq<real>, which: int)
    requires multiset(a) == multiset(b)
    ensures Quantile(a, which) == Quantile(b, which)
  {
    assert |a| == |multiset(a)| == |multiset(b)| == |b|;
    SortOfPermutation(a, b);
    if |a| == 1 {
      SortOfSorted(a);
      SortOfSorted(b);
    }
  }

  /** The median quartile is the 50th percentile. */
  lemma MedianIsPercentile(values: seq<real>)
    requires |values| >= 1
    ensures Quantile(values, 2) == Percentile(values, IntRank(50))
  {
    if |values| >= 2 {
      assert Normalize(IntRank(50)) == Success(0.5);
      QuantileUnfold(values);
      PercentileAtHalf(values, IntRank(50));
    }
  }

  /** Every value of a sorted sequence's lower half is at most its last; every value of the upper half at least its first. */
  lemma HalvesSplit(s: seq<real>, mid: nat)
    requires Sorted(s) && 0 < mid < |s|
    ensures Max(s[..mid]) <= s[mid - 1]
    ensures s[mid] <= Min(s[mid..])
  {
    var lo, hi := s[..mid], s[mid..];
    assert Max(lo) in lo;
    assert Min(hi) in hi;
  }

  /** The first quartile is at most the median, which is at most the third quartile. */
  lemma QuartilesOrdered(values: seq<real>)
    requires |values| >= 1
    ensures Quantile(values, 1).Success?
    ensures Quantile(values, 2).Success?
    ensures Quantile(values, 3).Success?
    ensures Quantile(values, 1).value <= Quantile(values, 2).value <= Quantile(values, 3).value
  {
    if |values| >= 2 {
      var s := Sort(values);
      var mid := |s| / 2;
      QuantileUnfold(values);
      HalvesSplit(s, mid);
      assert s[mid - 1] <= s[mid];
    }
  }

  /**
   * The median-of-halves Q1 is not the 25th percentile: on four sorted values
   * with distinct first two, Q1 is halfway between them and the 25th
   * percentile three quarters of the way.
   */
  lemma QuartileIsNotPercentile(s: seq<real>)
    requires |s| == 4 && Sorted(s) && s[0] < s[1]
    ensures Quantile(s, 1) == Success((s[0] + s[1]) / 2.0)
    ensures Percentile(s, IntRank(25)) == Success(s[0] + 0.75 * (s[1] - s[0]))
    ensures Quantile(s, 1) != Percentile(s, IntRank(25))
  {
    LowerQuartileOfSorted(s);
    MiddleOfPrefixTwo(s);
    QuarterPercentileOfFour(s);
  }

  /** The median of the first two of four values is their mean. */
  lemma MiddleOfPrefixTwo(s: seq<real>)
    requires |s| == 4
    ensures Middle(s[..|s| / 2]) == (s[0] + s[1]) / 2.0
  {
    var h := s[..2];
    assert h[0] == s[0] && h[1] == s[1];
  }

  /** Q1 of sorted values is the median of their lower half. */
  lemma LowerQuartileOfSorted(s: seq<real>)
    requires |s| >= 2 && Sorted(s)
    ensures |s| / 2 >= 1
    ensures Quantile(s, 1) == Success(Middle(s[..|s| / 2]))
  {
    var h := s[..|s| / 2];
    SortOfSorted(s);
    QuantileUnfold(s);
    assert Quantile(s, 1) == Quantile(h, 2);
    SortOfSorted(h);
    if |h| >= 2 {
      QuantileUnfold(h);
    } else {
      assert Middle(h) == h[0];
    }
  }

  /** The 25th percentile of four sorted values sits three quarters of the way from the first to the second. */
  lemma QuarterPercentileOfFour(s: seq<real>)
    requires |s| == 4 && Sorted(s)
    ensures Percentile(s, IntRank(25)) == Success(s[0] + 0.75 * (s[1] - s[0]))
  {
    SortOfSorted(s);
    PercentileUnfold(s, IntRank(25), 0.25);
    assert Scale(0.25, 3) == 0.75;
    InterpolateAtPoint(s, 0.75, 0, 0.75);
  }

  /** With two or more values, the three selectors in terms of the sorted copy. */
  lemma QuantileUnfold(values: seq<real>)
    requires |values| >= 2
    ensures var s := Sort(values);
            var mid := |s| / 2;
            && 0 < mid < |s|
            && Quantile(values, 1) == Quantile(s[..mid], 2)
            && Quantile(values, 3) == Quantile(s[mid..], 2)
            && Quantile(values, 2) == Success(Middle(s))
  {
  }

  /** Every selector fails on no data. */
  lemma QuantileOfNothing(which: int)
    ensures Quantile([], which) == Failure(EmptyDataset)
  {
  }
}
