/**
  The statistics and limits of the benchmark gate: nearest-rank percentiles, the four-number summary of a
  sample, and the integer limit derived from a baseline and a rational factor.
*/
module Benchmarks {
  import opened Wrappers

  // ---------- Sorting ----------

  function Inserted(x: int, s: seq<int>): (r: seq<int>)
    ensures |r| == |s| + 1
  {
    if s == [] || x <= s[0] then [x] + s else [s[0]] + Inserted(x, s[1..])
  }

  function Sorted(s: seq<int>): (r: seq<int>)
    ensures |r| == |s|
  {
    if s == [] then [] else Inserted(s[0], Sorted(s[1..]))
  }

  predicate Ascending(s: seq<int>) {
    forall i, j :: 0 <= i < j < |s| ==> s[i] <= s[j]
  }

  lemma Monotone(s: seq<int>, i: nat, j: nat)
    requires Ascending(s) && i <= j < |s|
    ensures s[i] <= s[j]
  {
  }

  lemma {:induction false} InsertedIsPermutation(x: int, s: seq<int>)
    ensures multiset(Inserted(x, s)) == multiset(s) + multiset{x}
  {
    if s != [] && x > s[0] {
      assert s == [s[0]] + s[1..];
      InsertedIsPermutation(x, s[1..]);
    }
  }

  lemma {:induction false} InsertedIsAscending(x: int, s: seq<int>)
    requires Ascending(s)
    ensures Ascending(Inserted(x, s))
    ensures Inserted(x, s)[0] == if s == [] || x <= s[0] then x else s[0]
  {
    if s != [] && x > s[0] {
      InsertedIsAscending(x, s[1..]);
    }
  }

  /** `sorted` arranges exactly the given samples. */
  lemma {:induction false} SortedIsAscendingPermutation(s: seq<int>)
    ensures Ascending(Sorted(s)) && multiset(Sorted(s)) == multiset(s)
  {
    if s != [] {
      assert s == [s[0]] + s[1..];
      SortedIsAscendingPermutation(s[1..]);
      InsertedIsAscending(s[0], Sorted(s[1..]));
      InsertedIsPermutation(s[0], Sorted(s[1..]));
    }
  }

  // ---------- Division ----------

  lemma Scale(a: int, b: int, factor: int)
    requires a <= b && factor >= 0
    ensures a * factor <= b * factor
  {
  }

  lemma FloorIsGreatest(product: int, divisor: int, x: int)
    requires divisor > 0
    ensures x * divisor <= product <==> x <= product / divisor
  {
    var q := product / divisor;
    if x <= q {
      Scale(x, q, divisor);
    } else {
      Scale(q + 1, x, divisor);
    }
  }

  lemma CeilingIsLeast(product: int, divisor: int, x: int)
    requires divisor > 0
    ensures x * divisor >= product <==> x >= (product + divisor - 1) / divisor
  {
    FloorIsGreatest(product + divisor - 1, divisor, x + 1);
  }

  // ---------- Nearest rank ----------

  /** The rank, clamped to the sample. */
  function Rank(n: int, percentile: int): (rank: int)
    requires n > 0
    ensures 1 <= rank <= n
  {
    Min(Max(1, (n * percentile + 99) / 100), n)
  }

  /** `None` is the failure on an empty sample. */
  function NearestRank(values: seq<int>, percentile: int): Option<int> {
    if values == [] then None else Some(Sorted(values)[Rank(|values|, percentile) - 1])
  }

  /** How many samples are at or below `x`. */
  function AtOrBelow(values: seq<int>, x: int): nat {
    if values == [] then 0 else AtOrBelow(values[1..], x) + if values[0] <= x then 1 else 0
  }

  /** At least `percentile` percent of the samples are at or below `x`. */
  predicate Covers(values: seq<int>, percentile: int, x: int) {
    AtOrBelow(values, x) * 100 >= |values| * percentile
  }

  /** `r` is the smallest sample that covers the percentile. */
  predicate IsPercentile(values: seq<int>, percentile: int, r: int) {
    r in values && Covers(values, percentile, r) && forall v <- values :: Covers(values, percentile, v) ==> r <= v
  }

  lemma {:induction false} AtOrBelowSplit(a: seq<int>, b: seq<int>, x: int)
    ensures AtOrBelow(a + b, x) == AtOrBelow(a, x) + AtOrBelow(b, x)
  {
    if a == [] {
      assert a + b == b;
    } else {
      assert (a + b)[1..] == a[1..] + b;
      AtOrBelowSplit(a[1..], b, x);
    }
  }

  lemma {:induction false} AtOrBelowInserted(y: int, s: seq<int>, x: int)
    ensures AtOrBelow(Inserted(y, s), x) == AtOrBelow(s, x) + if y <= x then 1 else 0
  {
    if s != [] && y > s[0] {
      AtOrBelowInserted(y, s[1..], x);
    } else {
      assert ([y] + s)[1..] == s;
    }
  }

  lemma {:induction false} AtOrBelowSorted(s: seq<int>, x: int)
    ensures AtOrBelow(Sorted(s), x) == AtOrBelow(s, x)
  {
    if s != [] {
      AtOrBelowSorted(s[1..], x);
      AtOrBelowInserted(s[0], Sorted(s[1..]), x);
    }
  }

  lemma {:induction false} AllOrNone(s: seq<int>, x: int)
    ensures (forall v <- s :: v <= x) ==> AtOrBelow(s, x) == |s|
    ensures (forall v <- s :: v > x) ==> AtOrBelow(s, x) == 0
    ensures AtOrBelow(s, x) <= |s|
  {
    if s != [] {
      AllOrNone(s[1..], x);
      assert s[0] in s && forall v <- s[1..] :: v in s;
    }
  }

  /** In an ascending sample, the first `k` samples are counted as soon as the last of them is. */
  lemma CountedFrom(ordered: seq<int>, k: nat, x: int)
    requires Ascending(ordered) && 0 < k <= |ordered| && ordered[k - 1] <= x
    ensures AtOrBelow(ordered, x) >= k
  {
    var low := ordered[..k];
    assert ordered == low + ordered[k..];
    AtOrBelowSplit(low, ordered[k..], x);
    forall v | v in low ensures v <= x {
      var i :| 0 <= i < k && ordered[i] == v;
    }
    AllOrNone(low, x);
  }

  /** Anything below the next sample counts no more than the first `k`. */
  lemma CountedUpTo(ordered: seq<int>, k: nat, x: int)
    requires Ascending(ordered) && k < |ordered| && x < ordered[k]
    ensures AtOrBelow(ordered, x) <= k
  {
    var high := ordered[k..];
    assert ordered == ordered[..k] + high;
    AtOrBelowSplit(ordered[..k], high, x);
    forall v | v in high ensures v > x {
      var i :| 0 <= i < |high| && high[i] == v;
      assert ordered[k + i] == v;
    }
    AllOrNone(high, x);
    AllOrNone(ordered[..k], x);
  }

  /** For a percentile that can be reached, the rank is the least positive sufficient count. */
  lemma RankIsLeast(n: nat, percentile: int, count: int)
    requires 0 < n && percentile <= 100 && 0 < count
    ensures count * 100 >= n * percentile <==> count >= Rank(n, percentile)
  {
    CeilingIsLeast(n * percentile, 100, n);
    CeilingIsLeast(n * percentile, 100, count);
    Scale(percentile, 100, n);
  }

  lemma CoversMeansRank(values: seq<int>, percentile: int, x: int)
    requires values != [] && percentile <= 100 && AtOrBelow(Sorted(values), x) > 0
    ensures Covers(values, percentile, x) <==> AtOrBelow(Sorted(values), x) >= Rank(|values|, percentile)
  {
    AtOrBelowSorted(values, x);
    RankIsLeast(|values|, percentile, AtOrBelow(values, x));
  }

  /** A sample is at or above the one of some rank exactly when it counts at least the rank. */
  lemma CountReachesRank(ordered: seq<int>, rank: int, v: int)
    requires Ascending(ordered) && 1 <= rank <= |ordered| && v in ordered
    ensures AtOrBelow(ordered, v) > 0
    ensures AtOrBelow(ordered, v) >= rank <==> ordered[rank - 1] <= v
  {
    var i :| 0 <= i < |ordered| && ordered[i] == v;
    CountedFrom(ordered, i + 1, v);
    if v < ordered[rank - 1] {
      CountedUpTo(ordered, rank - 1, v);
    } else {
      CountedFrom(ordered, rank, v);
    }
  }

  lemma SampleCoversFromRank(values: seq<int>, percentile: int, v: int)
    requires v in values && percentile <= 100
    ensures Covers(values, percentile, v) <==> NearestRank(values, percentile).value <= v
  {
    SortedIsAscendingPermutation(values);
    assert v in multiset(values);
    assert v in Sorted(values);
    CountReachesRank(Sorted(values), Rank(|values|, percentile), v);
    CoversMeansRank(values, percentile, v);
  }

  lemma ReachablePercentile(values: seq<int>, percentile: int)
    requires values != [] && percentile <= 100
    ensures IsPercentile(values, percentile, NearestRank(values, percentile).value)
  {
    SortedIsAscendingPermutation(values);
    var r := NearestRank(values, percentile).value;
    assert r in multiset(Sorted(values));
    forall v | v in values
      ensures Covers(values, percentile, v) <==> r <= v
    {
      SampleCoversFromRank(values, percentile, v);
    }
  }

  lemma UnreachablePercentile(values: seq<int>, percentile: int, r: int)
    requires values != [] && percentile > 100
    ensures !Covers(values, percentile, r)
  {
    AllOrNone(values, r);
    Scale(101, percentile, |values|);
  }

  /**
    The result is the smallest sample with at least `percentile` percent of the samples at or below it,
    exactly for the percentiles that any sample can reach.
   */
  lemma NearestRankIsThePercentileExactlyWhen(values: seq<int>, percentile: int)
    requires values != []
    ensures IsPercentile(values, percentile, NearestRank(values, percentile).value) <==> percentile <= 100
  {
    if percentile <= 100 {
      ReachablePercentile(values, percentile);
    } else {
      UnreachablePercentile(values, percentile, NearestRank(values, percentile).value);
    }
  }

  // ---------- The summary ----------

  datatype Summary = Summary(minimum: int, median: int, p95: int, maximum: int)

  /** Half of a sum, towards zero. */
  function Half(sum: int): int { if sum >= 0 then sum / 2 else -(-sum / 2) }

  function Median(values: seq<int>): int
    requires values != []
  {
    SortedIsAscendingPermutation(values);
    var ordered, n := Sorted(values), |values|;
    if n % 2 == 1 then ordered[n / 2] else Half(ordered[n / 2 - 1] + ordered[n / 2])
  }

  function ExpectedSummary(values: seq<int>): Option<Summary> {
    if values == [] then None
    else
      SortedIsAscendingPermutation(values);
      var ordered := Sorted(values);
      Some(Summary(ordered[0], Median(values), NearestRank(values, 95).value, ordered[|ordered| - 1]))
  }

  lemma ExtremesBoundTheSample(values: seq<int>)
    requires values != []
    ensures var ordered := Sorted(values);
      && ordered[0] in values && ordered[|ordered| - 1] in values
      && forall v <- values :: ordered[0] <= v <= ordered[|ordered| - 1]
  {
    SortedIsAscendingPermutation(values);
    var ordered, n := Sorted(values), |values|;
    assert ordered[0] in multiset(ordered) && ordered[n - 1] in multiset(ordered);
    forall v | v in values
      ensures ordered[0] <= v <= ordered[n - 1]
    {
      assert v in multiset(values);
      assert v in ordered;
    }
  }

  lemma RankOf95(n: nat)
    requires n > 0
    ensures n / 2 <= Rank(n, 95) - 1
  {
  }

  lemma NearestRankIsAtMostTheLast(values: seq<int>, percentile: int)
    requires values != []
    ensures NearestRank(values, percentile).value <= Sorted(values)[|values| - 1]
  {
    SortedIsAscendingPermutation(values);
    Monotone(Sorted(values), Rank(|values|, percentile) - 1, |values| - 1);
  }

  lemma P95IsInTheUpperHalf(values: seq<int>)
    requires values != []
    ensures Sorted(values)[|values| / 2] <= NearestRank(values, 95).value
  {
    SortedIsAscendingPermutation(values);
    RankOf95(|values|);
    Monotone(Sorted(values), |values| / 2, Rank(|values|, 95) - 1);
  }

  /** The four numbers are ordered. */
  lemma SummaryIsOrdered(values: seq<int>)
    requires values != []
    ensures var summary := ExpectedSummary(values).value; summary.minimum <= summary.median <= summary.p95 <= summary.maximum
  {
    MedianIsBetween(values);
    P95IsInTheUpperHalf(values);
    NearestRankIsAtMostTheLast(values, 95);
  }

  /** The outer two numbers are the extremes of the sample. */
  lemma SummaryHasTheExtremes(values: seq<int>)
    requires values != []
    ensures var summary := ExpectedSummary(values).value;
      && summary.minimum in values && summary.maximum in values
      && forall v <- values :: summary.minimum <= v <= summary.maximum
  {
    ExtremesBoundTheSample(values);
  }

  /** The middle, or the truncated middle of the middle two. */
  lemma MedianIsBetween(values: seq<int>)
    requires values != []
    ensures var ordered := Sorted(values); ordered[0] <= Median(values) <= ordered[|values| / 2]
  {
    SortedIsAscendingPermutation(values);
    var ordered, n := Sorted(values), |values|;
    if n % 2 == 0 {
      HalfIsBetween(ordered[n / 2 - 1], ordered[n / 2]);
    }
  }

  lemma HalfIsBetween(a: int, b: int)
    requires a <= b
    ensures a <= Half(a + b) <= b
  {
  }

  // ---------- Derived limits ----------

  /** `None` is the failure on an integer that is not positive. Any direction but `maximum` is a minimum. */
  function DerivedLimit(baseline: int, numerator: int, denominator: int, maximum: bool): Option<int> {
    if baseline <= 0 || numerator <= 0 || denominator <= 0 then None
    else if maximum then Some((baseline * numerator + denominator - 1) / denominator)
    else Some(baseline * denominator / numerator)
  }

  /**
    A maximum is the least integer at or above the scaled baseline and a minimum the greatest at or below
    the inversely scaled one: an integer is on the allowed side exactly when the rational is.
   */
  lemma DerivedLimitIsTight(baseline: int, numerator: int, denominator: int, limit: int)
    requires baseline > 0 && numerator > 0 && denominator > 0
    ensures limit * denominator >= baseline * numerator <==> limit >= DerivedLimit(baseline, numerator, denominator, true).value
    ensures limit * numerator <= baseline * denominator <==> limit <= DerivedLimit(baseline, numerator, denominator, false).value
  {
    CeilingIsLeast(baseline * numerator, denominator, limit);
    FloorIsGreatest(baseline * denominator, numerator, limit);
  }
}
