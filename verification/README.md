# amtStats statistics engine in Dafny

This project models the `Statistics` class of amtStats, a small
descriptive-statistics accumulator. The engine collects numeric observations
and a list of integer percentile ranks. On demand it computes a summary: min,
max, count, sum, mean, median, the quartiles Q1 and Q3, the interquartile
range, and one entry per rank, stored under the key `"<k>th"`.

Observations are modelled as `real`, so the arithmetic is exact and rounding
plays no part.

- `Results`: the failure kinds and a `Result` type that carries them.
  - `EmptyDataset` stands for the `ValueError` raised on no data.
  - `RankOutOfRange` stands for the `ValueError` raised for a bad rank.
  - `IndexOutOfRange` stands for the `IndexError` raised by reading past the end of the sorted copy.
- `Order`: the sorted copy and the built-in `min`, `max` and `sum`, plus the mean.
  - `Sort` is the unique sorted permutation. `InsertionSort` shows that one exists, and `SortedUnique` shows that it is unique.
- `Labels`: the decimal rendering of a rank and the `"<k>th"` key built from it. It also proves that rendering can be parsed back, so distinct ranks get distinct keys.
- `Percentiles`: `_percentile`, with the rank given as `IntRank(k)` or `FloatRank(f)`, so that the type-dependent range check can be expressed.
  - It also holds the corrected reading described under Findings.
- `Quantiles`: `_quantile`, the recursive median-of-halves.
- `Statistics`: the engine as an immutable record. `New`, `Update`, `SetPercentiles` and `Compute` stand for `__init__`, `update`, `percentiles` and `compute`.

The docstring of `_percentile` (amtStats/statistics.py:43-48) gives the rank
as "an integer [0,100] or float [0,1]" and the result as the interpolation
between the two closest ranks. The code departs from it in two places, and
this model follows the code (see Findings):

- A float rank in [0.0,1.0] passes its own check at line 60, but the `else`
  at line 65 belongs to the integer check at line 63, so the float rank is
  divided by 100 as well: float rank 0.5 acts as the fraction 0.005.
- Integer rank 100 passes the check at line 63, which accepts [0,100], but it
  puts the position at the last index, and line 77 then reads one past the
  end of the sorted copy and fails.

## Model

| member | source | states |
|---|---|---|
| Percentiles.Normalize | amtStats/statistics.py:59-66 | A rank passes exactly when it lies in the range of its own kind, [0,100] for integers and [0.0,1.0] for floats; otherwise it is a range error. A passing integer rank k becomes k/100, as in the corrected normalisation. A passing float rank f becomes f/100, a hundredth of the fraction the corrected normalisation gives, so it never exceeds 0.01. The fraction is in [0,1], and 1 only for integer rank 100. |
| Percentiles.Interpolate | amtStats/statistics.py:72-77 | Interpolation at position x succeeds exactly when floor(x)+1 is an index, and is an index error otherwise. On sorted data the result lies between the two order statistics at floor(x) and floor(x)+1. |
| Percentiles.InterpolateAt | amtStats/statistics.py:68-77 | At position rk*(n-1) of n ≥ 2 sorted values, interpolation fails (index error) exactly when rk is 1. Otherwise the result lies between the first and last sorted values. |
| Percentiles.Percentile | amtStats/statistics.py:42-77 | No data is an empty-dataset error. A single value is returned for every rank, even an out-of-range one. With two or more values: a range error exactly when the rank is outside its kind's range, and an index error exactly for integer rank 100. Every result lies within the data's min and max. |
| Percentiles.InterpolateAtFormula | amtStats/statistics.py:72-77 | Below the last position, the interpolated value is s[y] + frac(x)*(s[y+1]-s[y]) with y = floor(x), and lies in [s[y], s[y+1]]. It equals s[y] when x is whole, and, when s[y] < s[y+1], only then. |
| Percentiles.PercentileInterpolates | amtStats/statistics.py:68-77 | For two or more values and a valid rank other than integer 100, with x = rk*(n-1) for the normalised rank rk and y = floor(x): the percentile is s[y] + frac(x)*(s[y+1]-s[y]) on the sorted copy s, lies in [s[y], s[y+1]], equals s[y] when x is whole, and, when s[y] < s[y+1], only then. |
| Percentiles.InterpolateAtHalf | amtStats/statistics.py:72-77 | On two or more sorted values, interpolation at the fraction 0.5 gives the median: the middle value for an odd count, the mean of the two middle values for an even count. |
| Percentiles.PercentileOrderFree | amtStats/statistics.py:68-70 | Two datasets holding the same values (as multisets) have the same percentile for every rank, because only the sorted copy is used. |
| Percentiles.PercentileMonotone | amtStats/statistics.py:63-77 | Integer ranks 0 ≤ j ≤ k < 100 both succeed on non-empty data, and the percentile at j is at most the percentile at k. |
| Percentiles.PercentileRankZero | amtStats/statistics.py:59-77 | Integer rank 0 and float rank 0.0 both give the smallest observation. |
| Percentiles.FloatRankIsHundredth | amtStats/statistics.py:59-66 | For every data set, a valid float rank f gives what the corrected percentile gives for float rank f/100. |
| Percentiles.FloatRankDividedTwice | amtStats/statistics.py:60-66 | On [0, 100], the code gives 0.5 for float rank 0.5, whereas the corrected percentile gives 50. |
| Percentiles.RankHundredReadsPastEnd | amtStats/statistics.py:73-77 | On [1, 2], the code fails with an index error for integer rank 100, whereas the corrected percentile gives 2. |
| Percentiles.PercentileIntended | amtStats/statistics.py:42-77 | The corrected percentile has the same empty-data and single-value cases. With two or more values it succeeds exactly for in-range ranks, fails only with a range error, and stays within min and max. |
| Percentiles.IntendedEndpoints | amtStats/statistics.py:59-77 | In the corrected percentile, rank 0 of either kind gives the minimum, and integer rank 100 or float rank 1.0 gives the maximum. |
| Percentiles.IntendedScalesAgree | amtStats/statistics.py:60-66 | In the corrected percentile, float rank k/100 and integer rank k give the same result. |
| Percentiles.IntendedAgreesBelowHundred | amtStats/statistics.py:63-77 | For integer ranks below 100, the corrected percentile equals the code's. |
| Order.Sort | amtStats/statistics.py:68-70 | The sorted copy has the same length, is ascending, and holds the same values with the same multiplicities. |
| Order.SortedUnique | amtStats/statistics.py:68-70 | Two ascending sequences with the same multiset of values are equal, so the sorted copy is determined by the data. |
| Order.SortOfPermutation | amtStats/statistics.py:90-92 | Permutations of the data have the same sorted copy. |
| Order.Min | amtStats/statistics.py:133 | The minimum is one of the values and is at most every value. |
| Order.Max | amtStats/statistics.py:134 | The maximum is one of the values and is at least every value. |
| Order.SumConcat | amtStats/statistics.py:136 | The sum of a concatenation is the sum of the parts' sums (the sum itself, `Order.Sum`, is the left-to-right fold from 0 that the built-in `sum` performs). |
| Order.SumOfPermutation | amtStats/statistics.py:136 | The sum does not depend on the order of the values. |
| Order.Mean | amtStats/statistics.py:137 | The mean times the count is the sum, and the mean lies between the minimum and the maximum. |
| Quantiles.Quantile | amtStats/statistics.py:79-108 | No data is an empty-dataset error, and every selector succeeds on any other data. A single value is returned for every selector. Every quartile lies within the data's min and max. |
| Order.Middle | amtStats/statistics.py:102-108 | On sorted data, the median lies between the lower middle value s[(n-1)/2] and the upper middle value s[n/2]. |
| Quantiles.QuantileUnfold | amtStats/statistics.py:90-108 | With two or more values, Q1 is the median of the sorted copy's first n>>1 values, and Q3 the median of the remaining values, including the middle one when n is odd. Q2 is the middle of the sorted copy. |
| Quantiles.QuartilesOrdered | amtStats/statistics.py:98-108 | On non-empty data, all three quartiles exist and Q1 ≤ Q2 ≤ Q3. |
| Quantiles.QuantileOrderFree | amtStats/statistics.py:90-92 | Permutations of the data have the same quartiles for every selector. |
| Quantiles.MedianIsPercentile | amtStats/statistics.py:102-108 | The median-of-halves Q2 equals the 50th percentile, whether the count is odd or even. |
| Quantiles.LowerQuartileOfSorted | amtStats/statistics.py:98-99 | For sorted data of two or more values, Q1 is the median of the first n>>1 values. |
| Quantiles.QuartileIsNotPercentile | amtStats/statistics.py:79-108 | On four sorted values with s[0] < s[1], Q1 is (s[0]+s[1])/2 and the 25th percentile is s[0] + 0.75*(s[1]-s[0]), so the two methods give different results. |
| Quantiles.QuantileOfNothing | amtStats/statistics.py:82-84 | Every selector fails on no data. |
| Statistics.New | amtStats/statistics.py:35-40 | A new engine holds no observations, and its ranks are 10, 30, 50, 70, 90, 95, 97, 99. |
| Statistics.NewHasNoSummary | amtStats/statistics.py:37-40 | A new engine's summary is an empty-dataset error. |
| Statistics.Update | amtStats/statistics.py:110-114 | An update adds exactly one position and puts the new value there. Earlier values and the ranks are unchanged. |
| Statistics.UpdateAll | amtStats/statistics.py:110-114 | A series of updates appends the series, in order, and leaves the ranks unchanged. |
| Statistics.UpdateAddsToSum | amtStats/statistics.py:114 | After an update, the sum is the old sum plus the new value. |
| Statistics.UpdateMovesExtrema | amtStats/statistics.py:114 | After an update, the minimum is the smaller of the old minimum and the new value, and the maximum is the larger of the old maximum and the new value. |
| Statistics.UpdatesCommute | amtStats/statistics.py:110-114 | Two updates applied in either order give the same summary. |
| Statistics.SetPercentiles | amtStats/statistics.py:116-125 | Setting the ranks installs the new list, keeps the observations, and hands back the previous list. |
| Statistics.SetPercentilesUndo | amtStats/statistics.py:116-125 | Setting the ranks and then setting back the returned list restores the engine, and the second call returns the list that was set. |
| Statistics.RankedFrom | amtStats/statistics.py:152-154 | The entries from a given position succeed exactly when every rank from that position succeeds. On failure, the error is that of the first failing rank in list order. On success, the keys are exactly those ranks, each holding its percentile. |
| Statistics.Ranked | amtStats/statistics.py:152-154 | The entries succeed exactly when every listed rank has a percentile. On failure, the error is that of the first failing rank in list order. On success there is one entry per listed rank and no other, each holding its percentile. |
| Statistics.Entries | amtStats/statistics.py:154 | Under the `"<k>th"` keys, the keys are exactly the labels of the ranks, and each label holds its rank's value. |
| Labels.IntToString | amtStats/statistics.py:154 | The rendering of a rank is non-empty, starts with '-' exactly for negative ranks, and is decimal digits otherwise. It has no leading zero, as `str` gives: a non-negative rank renders as "0" or starts with a non-zero digit, and a negative rank's first digit is not '0'. |
| Labels.LabelReadsBack | amtStats/statistics.py:154 | The key of rank k (`Labels.Label`, the f-string `f'{k}th'`) ends in "th", and the part before it is a decimal rendering that reads back as k. |
| Labels.LabelInjective | amtStats/statistics.py:154 | Distinct ranks have distinct `"<k>th"` keys, so no entry overwrites another. |
| Labels.IntRoundTrip | amtStats/statistics.py:154 | The decimal rendering of a rank reads back as that rank. |
| Statistics.IntRankOutcome | amtStats/statistics.py:55-77 | On non-empty data, integer rank k succeeds exactly when there is one value or 0 ≤ k < 100. Rank 100 fails with an index error, and any other failing rank with a range error. |
| Statistics.Summarize | amtStats/statistics.py:132-144 | On non-empty data: the count is the number of values and the sum their sum; min and max are values with every value between them; the mean lies between them and times the count gives the sum; the median equals both the 50th percentile and Q2; q1 and q3 are the quartiles with q1 ≤ median ≤ q3; iqr = q3 - q1 ≥ 0. |
| Statistics.Compute | amtStats/statistics.py:127-156 | With no observations the summary is an empty-dataset error. Otherwise it succeeds exactly when there is one observation or every rank lies in [0,100). On failure, the error comes from the first rank in list order that is not in [0,100): an index error for 100, a range error otherwise. On success it carries the facts listed for Summarize. |
| Statistics.ComputeRankedEntries | amtStats/statistics.py:152-154 | A successful summary has one entry per listed rank and no other. Each entry is that rank's percentile and lies between min and max. |
| Statistics.ComputeEntries | amtStats/statistics.py:152-154 | Under string keys, a successful summary has exactly the keys "<k>th" for the listed ranks k, and each holds that rank's percentile. |
| Statistics.DefaultRanksSummarise | amtStats/statistics.py:35-40 | With the default ranks, any non-empty series of updates can be summarised, and the count is the length of the series. |
| Statistics.ComputeOrderFree | amtStats/statistics.py:127-156 | Engines whose observations are permutations of each other, with the same ranks, have the same summary. |

## Left out

- Rounding: `round(..., 3)` on mean, median, q1, q3 and the rank entries is not modelled. All values are exact reals. Because of this, iqr is q3 − q1 of the unrounded quartiles.
- The standard deviation is not modelled: the `math.sqrt` of the residual sum and its 7-place rounding. Square roots of reals are outside the model.
- Floating point in general is not modelled: observations are `real`, so there is no overflow, NaN or float rounding in sums, products or the position `rank * (n - 1)`. The distinction between int and float observations is dropped as well.
- The `isinstance` check in `update`, which raises `TypeError` for a non-number, is not modelled. A Dafny `real` is always a number.
- Aliasing of the rank list is not modelled. In the program it can be observed: a new engine's rank list is the class-level `PERCENTILES_RANK` list itself (amtStats/statistics.py:40), so changing it in place changes the default for every engine; and `percentiles` stores the caller's own list (amtStats/statistics.py:124), so the caller's later changes to that list reach the engine. The model's engine is an immutable value, so in the model no such sharing can be observed.
- Statistics.Compute: on no data it fails with `EmptyDataset`. The code fails inside the built-in `min` with a `ValueError` of its own message. The kinds of failure are modelled, not the exception messages.
- Statistics.Compute: the summary is a record with one field per fixed entry plus a map from rank to value. It is not one string-keyed dictionary.
  - `Entries` renders the rank map under the `"<k>th"` keys.
  - The insertion order of the dictionary's keys is not modelled.
- Ranks in the engine's list are integers, as the list's type says. A float or boolean placed in that list is not modelled.
- The `_quantile` selector is an `int`. Other argument types are not modelled.
- The test suites' data, drawn from a seeded pseudo-random generator, and `setup.py`, which does packaging, are not part of this model.

## Findings

| source | as written | input that shows it | evidently intended | confidence | as-written member | corrected member |
|---|---|---|---|---|---|---|
| amtStats/statistics.py:60-66 | The `else` that divides by 100 belongs to the integer range check, so a float rank that passed its own check is divided by 100 too. | values [0, 100], float rank 0.5: the result is 0.5 | Float rank f is used as the fraction f, so float rank 0.5 gives 50 and float rank k/100 agrees with integer rank k. | not executed | Percentiles.FloatRankDividedTwice | Percentiles.IntendedScalesAgree |
| amtStats/statistics.py:73-77 | The upper neighbour `array[y+1]` is read even when the fractional part is 0. For integer rank 100, y = n-1, so the read is past the end. | values [1, 2], integer rank 100: IndexError | Rank 100 gives the maximum, as rank 0 gives the minimum. | not executed | Percentiles.RankHundredReadsPastEnd | Percentiles.IntendedEndpoints |

`Percentiles.PercentileIntended` is the corrected definition. `Statistics.Compute` keeps the percentile as written, because that is what the engine reports. For every integer rank it reports (0 to 99), the two definitions agree (`Percentiles.IntendedAgreesBelowHundred`).
