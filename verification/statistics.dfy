/**
 * The statistics engine: it accumulates observations and a list of
 * percentile ranks, and computes a summary of the observations on demand.
 */
module Statistics {
  import opened Results
  import opened Order
  import opened Labels
  import opened Percentiles
  import opened Quantiles

  /** The percentile ranks reported unless the caller chooses others. */
  const PercentilesRank: seq<int> := [10, 30, 50, 70, 90, 95, 97, 99]

  /** The observations received so far, in arrival order, and the ranks to report. */
  datatype Engine = Engine(values: seq<real>, ranks: seq<int>)

  /** The summary of the observations: one field per fixed entry, plus one entry per reported rank. */
  datatype Summary = Summary(
    min: real,
    max: real,
    count: nat,
    sum: real,
    mean: real,
    median: real,
    q1: real,
    q3: real,
    iqr: real,
    ranked: map<int, real>)

  /** A fresh engine: no observations, the default ranks. */
  function New(): (e: Engine)
    ensures e.values == [] && e.ranks == PercentilesRank
  {
    Engine([], PercentilesRank)
  }

  /** Records one more observation at the end; the ranks are untouched. */
  function Update(e: Engine, v: real): (r: Engine)
    ensures |r.values| == |e.values| + 1
    ensures r.values[..|e.values|] == e.values && r.values[|e.values|] == v
    ensures r.ranks == e.ranks
  {
    e.(values := e.values + [v])
  }

  /** Records the observations of `vs` one after another. */
  function UpdateAll(e: Engine, vs: seq<real>): (r: Engine)
    decreases |vs|
    ensures r.values == e.values + vs
    ensures r.ranks == e.ranks
  {
    if vs == [] then e
    else
      var r := UpdateAll(Update(e, vs[0]), vs[1..]);
      assert e.values + vs == (e.values + [vs[0]]) + vs[1..];
      r
  }

  /** Replaces the ranks to report and hands back the ones that were in force. */
  function SetPercentiles(e: Engine, ranks: seq<int>): (r: (Engine, seq<int>))
    ensures r.0.values == e.values
    ensures r.0.ranks == ranks
    ensures r.1 == e.ranks
  {
    (e.(ranks := ranks), e.ranks)
  }

  /**
   * The percentile of the observations for each rank from position `from`
   * on, keyed by rank; the first rank (in list order) whose percentile fails
   * stops the computation with that failure. A rank listed twice gets one
   * entry, as a repeated key is overwritten with the same value.
   */
  function RankedFrom(values: seq<real>, ranks: seq<int>, from: nat): (r: Result<map<int, real>>)
    requires from <= |ranks|
    decreases |ranks| - from
    ensures r.Success? <==> forall i :: from <= i < |ranks| ==> Percentile(values, IntRank(ranks[i])).Success?
    ensures r.Failure? ==>
              exists i :: from <= i < |ranks|
                && Percentile(values, IntRank(ranks[i])) == Failure(r.error)
                && forall j :: from <= j < i ==> Percentile(values, IntRank(ranks[j])).Success?
    ensures r.Success? ==> r.value.Keys == set i | from <= i < |ranks| :: ranks[i]
    ensures r.Success? ==>
              forall i :: from <= i < |ranks| ==>
                ranks[i] in r.value && r.value[ranks[i]] == Percentile(values, IntRank(ranks[i])).value
  {
    if from == |ranks| then Success(map[])
    else
      var p :- Percentile(values, IntRank(ranks[from]));
      var rest :- RankedFrom(values, ranks, from + 1);
      assert (set i | from <= i < |ranks| :: ranks[i]) == {ranks[from]} + (set i | from + 1 <= i < |ranks| :: ranks[i]);
      Success(rest[ranks[from] := p])
  }

  /** The entries for all the ranks to report. */
  function Ranked(values: seq<real>, ranks: seq<int>): (r: Result<map<int, real>>)
    ensures r.Success? <==> forall k :: k in ranks ==> Percentile(values, IntRank(k)).Success?
    ensures r.Failure? ==>
              exists i :: 0 <= i < |ranks|
                && Percentile(values, IntRank(ranks[i])) == Failure(r.error)
                && forall j :: 0 <= j < i ==> Percentile(values, IntRank(ranks[j])).Success?
    ensures r.Success? ==> r.value.Keys == set k | k in ranks
    ensures r.Success? ==>
              forall k :: k in ranks ==> k in r.value && r.value[k] == Percentile(values, IntRank(k)).value
  {
    RankedFrom(values, ranks, 0)
  }

  /** The entries as `Statistics.compute` names them: the entry of rank `k` under "<k>th". */
  function Entries(ranked: map<int, real>): (m: map<string, real>)
    ensures m.Keys == set k | k in ranked :: Label(k)
    ensures forall k :: k in ranked ==> Label(k) in m && m[Label(k)] == ranked[k]
  {
    LabelsInjective();
    map k | k in ranked :: Label(k) := ranked[k]
  }

  /** `Label` as a whole is injective. */
  lemma LabelsInjective()
    ensures forall a, b :: Label(a) == Label(b) ==> a == b
  {
    forall a, b ensures Label(a) == Label(b) ==> a == b {
      LabelInjective(a, b);
    }
  }

  /**
   * The fixed entries of the summary of non-empty observations, with the
   * given percentile entries.
   */
  function Summarize(v: seq<real>, ranked: map<int, real>): (sm: Summary)
    requires |v| >= 1
    ensures sm.count == |v|
    ensures sm.sum == Sum(v)
    ensures sm.min in v && sm.max in v
    ensures forall i :: 0 <= i < |v| ==> sm.min <= v[i] <= sm.max
    ensures sm.min <= sm.mean <= sm.max
    ensures sm.mean == Mean(v)
    ensures sm.median == Percentile(v, IntRank(50)).value
    ensures sm.median == Quantile(v, 2).value
    ensures sm.q1 == Quantile(v, 1).value
    ensures sm.q3 == Quantile(v, 3).value
    ensures sm.q1 <= sm.median <= sm.q3
    ensures sm.iqr == sm.q3 - sm.q1 && sm.iqr >= 0.0
    ensures sm.ranked == ranked
  {
    MedianIsPercentile(v);
    QuartilesOrdered(v);
    var median := Percentile(v, IntRank(50)).value;
    var q1 := Quantile(v, 1).value;
    var q3 := Quantile(v, 3).value;
    Summary(Min(v), Max(v), |v|, Sum(v), Mean(v), median, q1, q3, q3 - q1, ranked)
  }

  /** Which integer ranks the percentile of non-empty observations accepts, and how it rejects the others. */
  lemma IntRankOutcome(values: seq<real>)
    requires |values| >= 1
    ensures forall k :: Percentile(values, IntRank(k)).Success? <==> |values| == 1 || 0 <= k < 100
    ensures forall k :: Percentile(values, IntRank(k)).Failure? ==>
              Percentile(values, IntRank(k)).error == (if k == 100 then IndexOutOfRange else RankOutOfRange)
  {
  }

  /**
   * The summary of the observations. No observations is an error; otherwise
   * the first reported rank whose percentile fails makes the whole summary
   * fail.
   */
  function Compute(e: Engine): (r: Result<Summary>)
    ensures |e.values| == 0 ==> r == Failure(EmptyDataset)
    ensures r.Success? <==>
              |e.values| >= 1 && (|e.values| == 1 || forall k :: k in e.ranks ==> 0 <= k < 100)
    ensures r.Failure? && |e.values| >= 1 ==>
              exists i :: 0 <= i < |e.ranks|
                && !(0 <= e.ranks[i] < 100)
                && (forall j :: 0 <= j < i ==> 0 <= e.ranks[j] < 100)
                && r.error == (if e.ranks[i] == 100 then IndexOutOfRange else RankOutOfRange)
    ensures r.Success? ==>
              var sm := r.value;
              && sm.count == |e.values|
              && sm.sum == Sum(e.values)
              && sm.min in e.values && sm.max in e.values
              && (forall i :: 0 <= i < |e.values| ==> sm.min <= e.values[i] <= sm.max)
              && sm.min <= sm.mean <= sm.max
              && sm.mean == Mean(e.values)
              && sm.median == Percentile(e.values, IntRank(50)).value
              && sm.median == Quantile(e.values, 2).value
              && sm.q1 == Quantile(e.values, 1).value
              && sm.q3 == Quantile(e.values, 3).value
              && sm.q1 <= sm.median <= sm.q3
              && sm.iqr == sm.q3 - sm.q1 && sm.iqr >= 0.0
  {
    if |e.values| == 0 then Failure(EmptyDataset)
    else
      IntRankOutcome(e.values);
      var ranked :- Ranked(e.values, e.ranks);
      Success(Summarize(e.values, ranked))
  }

  /**
   * A successful summary has one entry per reported rank and no other, each
   * holding the percentile of the observations for that rank, within the
   * extrema.
   */
  lemma ComputeRankedEntries(e: Engine)
    requires Compute(e).Success?
    ensures var sm := Compute(e).value;
            && sm.ranked.Keys == set k | k in e.ranks
            && forall k :: k in e.ranks ==>
                 && k in sm.ranked
                 && Percentile(e.values, IntRank(k)) == Success(sm.ranked[k])
                 && sm.min <= sm.ranked[k] <= sm.max
  {
    var ranked := Ranked(e.values, e.ranks);
    assert ranked.Success?;
    assert Compute(e) == Success(Summarize(e.values, ranked.value));
  }

  /**
   * Rendered under string keys, a successful summary has exactly one
   * "<k>th" entry per reported rank `k`, holding that rank's percentile.
   */
  lemma ComputeEntries(e: Engine)
    requires Compute(e).Success?
    ensures var m := Entries(Compute(e).value.ranked);
            && m.Keys == (set k | k in e.ranks :: Label(k))
            && forall k :: k in e.ranks ==> Label(k) in m && Percentile(e.values, IntRank(k)) == Success(m[Label(k)])
  {
    ComputeRankedEntries(e);
  }

  /** A fresh engine has nothing to summarise. */
  lemma NewHasNoSummary()
    ensures Compute(New()) == Failure(EmptyDataset)
  {
  }

  /** Putting back the ranks handed back by `SetPercentiles` restores the engine and hands back the ranks it had set. */
  lemma SetPercentilesUndo(e: Engine, ranks: seq<int>)
    ensures var (e1, prev1) := SetPercentiles(e, ranks);
            var (e2, prev2) := SetPercentiles(e1, prev1);
            e2 == e && prev2 == ranks
  {
  }

  /** Each update adds its value to the sum. */
  lemma UpdateAddsToSum(e: Engine, v: real)
    ensures Sum(Update(e, v).values) == Sum(e.values) + v
  {
    assert (e.values + [v])[..|e.values|] == e.values;
  }

  /** Each update lowers the minimum to the new value or leaves it, and likewise raises the maximum. */
  lemma UpdateMovesExtrema(e: Engine, v: real)
    requires |e.values| > 0
    ensures Min(Update(e, v).values) == (if v < Min(e.values) then v else Min(e.values))
    ensures Max(Update(e, v).values) == (if v > Max(e.values) then v else Max(e.values))
  {
    var s, t := e.values, Update(e, v).values;
    assert Min(s) in t && Max(s) in t;
    assert forall x :: x in t ==> x in s || x == v;
  }

  /** With the default ranks, any non-empty series of updates can be summarised, and the count is the number of updates. */
  lemma DefaultRanksSummarise(vs: seq<real>)
    requires |vs| >= 1
    ensures Compute(UpdateAll(New(), vs)).Success?
    ensures Compute(UpdateAll(New(), vs)).value.count == |vs|
  {
    var e := UpdateAll(New(), vs);
    assert e.values == vs by {
      assert [] + vs == vs;
    }
    assert e.ranks == PercentilesRank;
    DefaultRanksUsable();
    UsableRanksSummarise(e);
  }

  /** Non-empty observations with usable ranks can always be summarised. */
  lemma UsableRanksSummarise(e: Engine)
    requires |e.values| >= 1
    requires forall k :: k in e.ranks ==> 0 <= k < 100
    ensures Compute(e).Success?
    ensures Compute(e).value.count == |e.values|
  {
  }

  /** Every default rank lies in [0, 100). */
  lemma DefaultRanksUsable()
    ensures forall k :: k in PercentilesRank ==> 0 <= k < 100
  {
  }

  /** The entries depend on the multiset of observations, not their order. */
  lemma {:induction false} RankedFromOrderFree(a: seq<real>, b: seq<real>, ranks: seq<int>, from: nat)
    requires multiset(a) == multiset(b)
    requires from <= |ranks|
    ensures RankedFrom(a, ranks, from) == RankedFrom(b, ranks, from)
    decreases |ranks| - from
  {
    if from < |ranks| {
      PercentileOrderFree(a, b, IntRank(ranks[from]));
      RankedFromOrderFree(a, b, ranks, from + 1);
    }
  }

  /** The summary depends on the multiset of observations, not the order of the updates. */
  lemma ComputeOrderFree(e1: Engine, e2: Engine)
    requires multiset(e1.values) == multiset(e2.values)
    requires e1.ranks == e2.ranks
    ensures Compute(e1) == Compute(e2)
  {
    var a, b := e1.values, e2.values;
    assert |a| == |multiset(a)| == |multiset(b)| == |b|;
    if |a| > 0 {
      RankedFromOrderFree(a, b, e1.ranks, 0);
      MinMaxOfPermutation(a, b);
      SumOfPermutation(a, b);
      PercentileOrderFree(a, b, IntRank(50));
      QuantileOrderFree(a, b, 1);
      QuantileOrderFree(a, b, 3);
      var ranked := Ranked(a, e1.ranks);
      if ranked.Success? {
        SummarizeOrderFree(a, b, ranked.value);
      }
    }
  }

  /** Summaries of permuted observations agree. */
  lemma SummarizeOrderFree(a: seq<real>, b: seq<real>, ranked: map<int, real>)
    requires |a| >= 1
    requires multiset(a) == multiset(b)
    ensures |b| >= 1
    ensures Summarize(a, ranked) == Summarize(b, ranked)
  {
    assert |a| == |multiset(a)| == |multiset(b)| == |b|;
    MinMaxOfPermutation(a, b);
    SumOfPermutation(a, b);
    PercentileOrderFree(a, b, IntRank(50));
    QuantileOrderFree(a, b, 1);
    QuantileOrderFree(a, b, 3);
  }

  /** Two updates in either order give the same summary. */
  lemma UpdatesCommute(e: Engine, v: real, w: real)
    ensures Compute(Update(Update(e, v), w)) == Compute(Update(Update(e, w), v))
  {
    var s := e.values;
    var e1, e2 := Update(Update(e, v), w), Update(Update(e, w), v);
    assert e1.values == s + [v] + [w];
    assert e2.values == s + [w] + [v];
    assert multiset(e1.values) == multiset(s) + multiset{v} + multiset{w};
    assert multiset(e2.values) == multiset(s) + multiset{w} + multiset{v};
    ComputeOrderFree(e1, e2);
  }

}
