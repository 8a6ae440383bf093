/** Ordering, extrema and sums over sequences of observations. */
module Order {

  /** Ascending order. */
  predicate Sorted(s: seq<real>) {
    forall i, j :: 0 <= i < j < |s| ==> s[i] <= s[j]
  }

  /** Inserts `x` into a sorted sequence, keeping it sorted. */
  function Insert(x: real, s: seq<real>): (r: seq<real>)
    requires Sorted(s)
    ensures |r| == |s| + 1
    ensures Sorted(r)
    ensures multiset(r) == multiset(s) + multiset{x}
  {
    if s == [] then [x]
    else if x <= s[0] then [x] + s
    else
      var t := Insert(x, s[1..]);
      assert s == [s[0]] + s[1..];
      InsertHeadBound(x, s, t);
      [s[0]] + t
  }

  /** The head of `s` bounds every value of `t` that came from `s[1..]` or is a larger `x`. */
  lemma InsertHeadBound(x: real, s: seq<real>, t: seq<real>)
    requires Sorted(s) && |s| > 0 && s[0] < x
    requires multiset(t) == multiset(s[1..]) + multiset{x}
    ensures forall i :: 0 <= i < |t| ==> s[0] <= t[i]
  {
    forall i | 0 <= i < |t|
      ensures s[0] <= t[i]
    {
      assert t[i] in multiset(t);
      if t[i] != x {
        assert t[i] in multiset(s[1..]);
        var k :| 0 <= k < |s[1..]| && s[1..][k] == t[i];
        assert s[k + 1] == t[i];
      }
    }
  }

  /** Insertion sort: a sorted permutation of every sequence exists. */
  function InsertionSort(s: seq<real>): (r: seq<real>)
    ensures Sorted(r)
    ensures multiset(r) == multiset(s)
  {
    if s == [] then []
    else
      assert s == [s[0]] + s[1..];
      Insert(s[0], InsertionSort(s[1..]))
  }

  /**
   * The ascending copy of `s` that every statistic is computed from: the
   * sorted permutation of `s`, which exists (`InsertionSort`) and is unique
   * (`SortedUnique`), as the copy-and-sort in amtStats `Statistics._percentile`
   * and `_quantile` produces it.
   */
  function Sort(s: seq<real>): (r: seq<real>)
    ensures |r| == |s|
    ensures Sorted(r)
    ensures multiset(r) == multiset(s)
  {
    var w := InsertionSort(s);
    assert Sorted(w) && multiset(w) == multiset(s);
    SortedUniqueAll();
    var r :| Sorted(r) && multiset(r) == multiset(s);
    assert |r| == |multiset(r)| == |multiset(s)| == |s|;
    r
  }

  /** `SortedUnique` for all pairs at once. */
  lemma SortedUniqueAll()
    ensures forall a, b :: Sorted(a) && Sorted(b) && multiset(a) == multiset(b) ==> a == b
  {
    forall a, b | Sorted(a) && Sorted(b) && multiset(a) == multiset(b)
      ensures a == b
    {
      SortedUnique(a, b);
    }
  }

  /** Two sorted sequences holding the same values are the same sequence. */
  lemma {:induction false} SortedUnique(a: seq<real>, b: seq<real>)
    requires Sorted(a) && Sorted(b)
    requires multiset(a) == multiset(b)
    ensures a == b
    decreases |a|
  {
    assert |a| == |multiset(a)| == |multiset(b)| == |b|;
    if |a| > 0 {
      assert a[0] == b[0] by {
        SortedEnds(a);
        SortedEnds(b);
        assert a[0] in multiset(b) && b[0] in multiset(a);
      }
      var a', b' := a[1..], b[1..];
      assert multiset(a') == multiset(b') by {
        assert a == [a[0]] + a';
        assert b == [b[0]] + b';
        assert multiset(a') == multiset(a) - multiset{a[0]};
        assert multiset(b') == multiset(b) - multiset{b[0]};
      }
      SortedUnique(a', b');
      assert a == [a[0]] + a' && b == [b[0]] + b';
    }
  }

  /** Every value of a sorted sequence lies between its two ends. */
  lemma SortedEnds(t: seq<real>)
    requires Sorted(t) && |t| > 0
    ensures forall x :: x in t ==> t[0] <= x <= t[|t| - 1]
  {
    forall x | x in t
      ensures t[0] <= x <= t[|t| - 1]
    {
      var i :| 0 <= i < |t| && t[i] == x;
    }
  }

  /** Sorting forgets the input order: permutations have the same sorted copy. */
  lemma SortOfPermutation(a: seq<real>, b: seq<real>)
    requires multiset(a) == multiset(b)
    ensures Sort(a) == Sort(b)
  {
    SortedUnique(Sort(a), Sort(b));
  }

  /** Sorting an already sorted sequence changes nothing. */
  lemma SortOfSorted(s: seq<real>)
    requires Sorted(s)
    ensures Sort(s) == s
  {
    SortedUnique(Sort(s), s);
  }

  /** The smallest observation, as the built-in `min` returns it. */
  function Min(s: seq<real>): (m: real)
    requires |s| > 0
    ensures m in s
    ensures forall i :: 0 <= i < |s| ==> m <= s[i]
  {
    MinFrom(s, 0)
  }

  /** The smallest of `s[lo..]`. */
  function MinFrom(s: seq<real>, lo: nat): (m: real)
    requires lo < |s|
    ensures m in s
    ensures forall i :: lo <= i < |s| ==> m <= s[i]
    decreases |s| - lo
  {
    if lo == |s| - 1 then s[lo]
    else
      var t := MinFrom(s, lo + 1);
      if s[lo] <= t then s[lo] else t
  }

  /** The largest observation, as the built-in `max` returns it. */
  function Max(s: seq<real>): (m: real)
    requires |s| > 0
    ensures m in s
    ensures forall i :: 0 <= i < |s| ==> s[i] <= m
  {
    MaxFrom(s, 0)
  }

  /** The largest of `s[lo..]`. */
  function MaxFrom(s: seq<real>, lo: nat): (m: real)
    requires lo < |s|
    ensures m in s
    ensures forall i :: lo <= i < |s| ==> s[i] <= m
    decreases |s| - lo
  {
    if lo == |s| - 1 then s[lo]
    else
      var t := MaxFrom(s, lo + 1);
      if s[lo] >= t then s[lo] else t
  }

  /** The extrema depend only on which values occur, not on their order. */
  lemma MinMaxOfPermutation(a: seq<real>, b: seq<real>)
    requires |a| > 0
    requires multiset(a) == multiset(b)
    ensures |b| > 0
    ensures Min(a) == Min(b) && Max(a) == Max(b)
  {
    assert |a| == |multiset(a)| == |multiset(b)| == |b|;
    assert Min(a) in multiset(b) && Min(b) in multiset(a);
    assert Max(a) in multiset(b) && Max(b) in multiset(a);
  }

  /** The extrema of a sequence are the two ends of its sorted copy. */
  lemma MinMaxOfSort(s: seq<real>)
    requires |s| > 0
    ensures |Sort(s)| == |s|
    ensures Min(s) == Sort(s)[0]
    ensures Max(s) == Sort(s)[|s| - 1]
  {
    var t := Sort(s);
    MinMaxOfPermutation(s, t);
    SortedEnds(t);
    assert Min(t) in t && Max(t) in t;
  }

  /** Left-to-right sum, as the built-in `sum` accumulates it (0 for no values). */
  function Sum(s: seq<real>): real
  {
    if s == [] then 0.0 else Sum(s[..|s| - 1]) + s[|s| - 1]
  }

  /** Summing a concatenation sums the parts. */
  lemma {:induction false} SumConcat(u: seq<real>, w: seq<real>)
    ensures Sum(u + w) == Sum(u) + Sum(w)
    decreases |w|
  {
    if w != [] {
      var w' := w[..|w| - 1];
      assert (u + w)[..|u + w| - 1] == u + w';
      SumConcat(u, w');
    } else {
      assert u + w == u;
    }
  }

  /** The sum does not depend on the order of the values. */
  lemma {:induction false} SumOfPermutation(a: seq<real>, b: seq<real>)
    requires multiset(a) == multiset(b)
    ensures Sum(a) == Sum(b)
    decreases |a|
  {
    assert |a| == |multiset(a)| == |multiset(b)| == |b|;
    if a != [] {
      var x := a[|a| - 1];
      var a' := a[..|a| - 1];
      assert a == a' + [x];
      assert x in multiset(b);
      var j :| 0 <= j < |b| && b[j] == x;
      var b' := b[..j] + b[j + 1..];
      assert b == b[..j] + [x] + b[j + 1..];
      assert multiset(b') == multiset(a') by {
        assert multiset(b) == multiset(b[..j]) + multiset{x} + multiset(b[j + 1..]);
        assert multiset(b') == multiset(b[..j]) + multiset(b[j + 1..]);
        assert multiset(b') == multiset(b) - multiset{x};
        assert multiset(a') == multiset(a) - multiset{x};
        assert multiset(a) == multiset(a') + multiset{x};
      }
      SumOfPermutation(a', b');
      SumConcat(b[..j] + [x], b[j + 1..]);
      SumConcat(b[..j], [x]);
      SumConcat(b[..j], b[j + 1..]);
      assert Sum([x]) == x by {
        assert [x][..0] == [];
      }
    }
  }

  /** A sum of values that all lie in [lo, hi] lies in [n*lo, n*hi]. */
  lemma {:induction false} SumBetween(s: seq<real>, lo: real, hi: real)
    requires forall i :: 0 <= i < |s| ==> lo <= s[i] <= hi
    ensures |s| as real * lo <= Sum(s) <= |s| as real * hi
    decreases |s|
  {
    if s != [] {
      var s' := s[..|s| - 1];
      SumBetween(s', lo, hi);
      assert |s| as real * lo == |s'| as real * lo + lo;
      assert |s| as real * hi == |s'| as real * hi + hi;
    }
  }

  /** The mean of a non-empty sequence lies between its extrema. */
  lemma MeanBetweenExtrema(s: seq<real>)
    requires |s| > 0
    ensures Min(s) <= Sum(s) / |s| as real <= Max(s)
  {
    var lo, hi := Min(s), Max(s);
    SumBetween(s, lo, hi);
    MeanBetween(s, lo, hi);
  }

  /** The mean of values whose sum lies in [n*lo, n*hi] lies in [lo, hi]. */
  lemma MeanBetween(s: seq<real>, lo: real, hi: real)
    requires |s| > 0
    requires |s| as real * lo <= Sum(s) <= |s| as real * hi
    ensures lo <= Sum(s) / |s| as real <= hi
  {
    DivideBetween(Sum(s), |s| as real, lo, hi);
  }

  /** Dividing n*lo <= t <= n*hi by a positive n. */
  lemma DivideBetween(t: real, n: real, lo: real, hi: real)
    requires n > 0.0
    requires n * lo <= t <= n * hi
    ensures lo <= t / n <= hi
  {
    var q := t / n;
    assert q * n == t;
    assert n * lo <= n * q <= n * hi;
  }

  /** The arithmetic mean of a non-empty sequence: the sum over the count. */
  function Mean(s: seq<real>): (m: real)
    requires |s| > 0
    ensures m * |s| as real == Sum(s)
    ensures Min(s) <= m <= Max(s)
  {
    MeanBetweenExtrema(s);
    MeanTimesCount(s);
    Sum(s) / |s| as real
  }

  /** The mean times the count gives back the sum. */
  lemma MeanTimesCount(s: seq<real>)
    requires |s| > 0
    ensures (Sum(s) / |s| as real) * |s| as real == Sum(s)
  {
    var n := |s| as real;
    var q := Sum(s) / n;
    assert q * n == Sum(s);
  }

  /**
   * The median of sorted values: the middle one for an odd count, the mean of
   * the two middle ones for an even count. It lies between the lower and the
   * upper middle value.
   */
  function Middle(s: seq<real>): (r: real)
    requires |s| >= 1
    ensures Sorted(s) ==> s[(|s| - 1) / 2] <= r <= s[|s| / 2]
  {
    var mid := |s| / 2;
    if |s| % 2 == 1 then s[mid] else (s[mid - 1] + s[mid]) / 2.0
  }
}
