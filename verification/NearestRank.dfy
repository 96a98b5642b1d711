/** Raw samples: how they fall into buckets, and the exact nearest-rank percentile the buckets approximate. */
module NearestRank {
  import opened Merge
  import opened Percentile
  import opened Sums
  import opened Wrappers

  type Samples = seq<int>

  /** The bucket of a sample: the first whose (inclusive) upper bound is not below it. */
  function BucketOf(bounds: seq<real>, x: int): (b: nat)
    ensures b <= |bounds|
    ensures forall j :: 0 <= j < b ==> bounds[j] < x as real
    ensures b < |bounds| ==> x as real <= bounds[b]
  {
    BucketSearch(bounds, x, 0)
  }

  function BucketSearch(bounds: seq<real>, x: int, i: nat): (b: nat)
    requires i <= |bounds| && forall j :: 0 <= j < i ==> bounds[j] < x as real
    ensures i <= b <= |bounds|
    ensures forall j :: 0 <= j < b ==> bounds[j] < x as real
    ensures b < |bounds| ==> x as real <= bounds[b]
    decreases |bounds| - i
  {
    if i == |bounds| || x as real <= bounds[i] then i else BucketSearch(bounds, x, i + 1)
  }

  function InBucketTerm(bounds: seq<real>, b: nat): int -> nat {
    x => if BucketOf(bounds, x) == b then 1 else 0
  }

  function BelowTerm(bounds: seq<real>, k: nat): int -> nat {
    x => if BucketOf(bounds, x) < k then 1 else 0
  }

  /** The bucket counts of a list of samples. */
  function Histogram(bounds: seq<real>, xs: Samples): (counts: seq<nat>)
    ensures |counts| == |bounds| + 1
  {
    seq(|bounds| + 1, b requires 0 <= b => Sum(xs, InBucketTerm(bounds, b)))
  }

  lemma {:induction false} SumSplit(bounds: seq<real>, xs: Samples, k: nat)
    ensures Sum(xs, BelowTerm(bounds, k + 1)) == Sum(xs, BelowTerm(bounds, k)) + Sum(xs, InBucketTerm(bounds, k))
    ensures Sum(xs, BelowTerm(bounds, 0)) == 0
  {
    if xs != [] {
      SumSplit(bounds, xs[..|xs| - 1], k);
    }
  }

  /** The first k buckets hold the samples whose bucket is below k; all of them together hold all samples. */
  lemma {:induction false} CumIsBelow(bounds: seq<real>, xs: Samples, k: nat)
    requires k <= |bounds| + 1
    ensures Cum(Histogram(bounds, xs), k) == Sum(xs, BelowTerm(bounds, k))
  {
    SumSplit(bounds, xs, 0);
    if k > 0 {
      CumIsBelow(bounds, xs, k - 1);
      SumSplit(bounds, xs, k - 1);
    }
  }

  lemma {:induction false} AllAreBelow(bounds: seq<real>, xs: Samples)
    ensures Sum(xs, BelowTerm(bounds, |bounds| + 1)) == |xs|
  {
    if xs != [] {
      AllAreBelow(bounds, xs[..|xs| - 1]);
    }
  }

  lemma HistogramTotal(bounds: seq<real>, xs: Samples)
    ensures Total(Histogram(bounds, xs)) == |xs|
  {
    CumIsBelow(bounds, xs, |bounds| + 1);
    AllAreBelow(bounds, xs);
  }

  lemma HistogramAppend(bounds: seq<real>, xs: Samples, ys: Samples)
    ensures Histogram(bounds, xs + ys) == AddCounts(Histogram(bounds, xs), Histogram(bounds, ys))
  {
    forall b | 0 <= b <= |bounds|
      ensures Histogram(bounds, xs + ys)[b] == AddCounts(Histogram(bounds, xs), Histogram(bounds, ys))[b]
    {
      SumAppend(xs, ys, InBucketTerm(bounds, b));
    }
  }

  /** All samples of all shards, shard by shard. */
  function Union(shards: seq<Samples>): Samples {
    if shards == [] then [] else Union(shards[..|shards| - 1]) + shards[|shards| - 1]
  }

  /** Each result carries the histogram of its own shard's samples. */
  ghost predicate Report(rs: seq<Chan>, shards: seq<Samples>, bounds: seq<real>) {
    && |rs| == |shards|
    && forall k :: 0 <= k < |rs| ==> rs[k].hist == Some(Hist(bounds, Histogram(bounds, shards[k])))
  }

  /** Merging the shards' histograms gives the histogram of all samples together. */
  lemma {:induction false} MergedIsHistogramOfUnion(rs: seq<Chan>, shards: seq<Samples>, bounds: seq<real>)
    requires rs != [] && Report(rs, shards, bounds)
    ensures HistsOK(rs) && MergedHist(rs) == Some(Hist(bounds, Histogram(bounds, Union(shards))))
  {
    hide Histogram;
    var front, last := rs[..|rs| - 1], shards[|shards| - 1];
    assert HistsOK(rs) && HistsOK(front);
    if front == [] {
      assert Union(shards) == Union([]) + last == last by { assert shards[..0] == []; }
    } else {
      MergedIsHistogramOfUnion(front, shards[..|shards| - 1], bounds);
      HistogramAppend(bounds, Union(shards[..|shards| - 1]), last);
    }
  }

  // ---- The nearest-rank percentile ----

  ghost predicate Sorted(s: Samples) {
    forall i, j :: 0 <= i < j < |s| ==> s[i] <= s[j]
  }

  function Ceil(x: real): (n: int)
    ensures n as real - 1.0 < x <= n as real
  {
    -((-x).Floor)
  }

  /** pct of market-sub-bin: the sample of rank ceil(n * p / 100), clamped to the list. */
  function NearestRank(sorted: Samples, p: real): int {
    if |sorted| == 0 then 0
    else
      var idx := Ceil(TargetOf(|sorted|, p)) - 1;
      var low := if idx < 0 then 0 else idx;
      sorted[if low >= |sorted| then |sorted| - 1 else low]
  }

  lemma BucketMonotone(bounds: seq<real>, x: int, y: int)
    requires x <= y
    ensures BucketOf(bounds, x) <= BucketOf(bounds, y)
  {
  }

  /** In a sorted list the samples below bucket k come first. */
  lemma {:induction false} BelowInSorted(bounds: seq<real>, s: Samples, k: nat, i: nat)
    requires Sorted(s) && i < |s|
    ensures BucketOf(bounds, s[i]) < k <==> i < Sum(s, BelowTerm(bounds, k))
    ensures Sum(s, BelowTerm(bounds, k)) <= |s|
  {
    var front, x := s[..|s| - 1], s[|s| - 1];
    BucketMonotone(bounds, s[i], x);
    if i < |front| {
      BelowInSorted(bounds, front, k, i);
      BelowInSorted(bounds, front, k, |front| - 1);
      BucketMonotone(bounds, front[|front| - 1], x);
    } else if front != [] {
      BelowInSorted(bounds, front, k, |front| - 1);
      BucketMonotone(bounds, front[|front| - 1], x);
    }
  }

  lemma CeilReach(t: real, c: nat)
    ensures t <= c as real <==> Ceil(t) - 1 < c
  {
  }

  /** One for a sample that is at most v. */
  function AtMostTerm(v: int): int -> nat {
    x => if x <= v then 1 else 0
  }

  lemma {:induction false} AtMostInSorted(s: Samples, v: int, i: nat)
    requires Sorted(s) && i < |s|
    ensures s[i] <= v <==> i < Sum(s, AtMostTerm(v))
    ensures Sum(s, AtMostTerm(v)) <= |s|
  {
    var front := s[..|s| - 1];
    if i < |front| {
      AtMostInSorted(front, v, i);
      AtMostInSorted(front, v, |front| - 1);
    } else if front != [] {
      AtMostInSorted(front, v, |front| - 1);
    }
  }

  /** The nearest-rank percentile is the least sample with at least p percent of the samples at or below it. */
  lemma NearestRankIsInverse(sorted: Samples, p: real, v: int)
    requires sorted != [] && Sorted(sorted) && 0.0 < p <= 100.0
    ensures NearestRank(sorted, p) <= v <==> TargetOf(|sorted|, p) <= Sum(sorted, AtMostTerm(v)) as real
  {
    var n, t := |sorted|, TargetOf(|sorted|, p);
    OrderTimes(p, 100.0, n as real);
    OrderTimes(0.0, p, n as real);
    RankInRange(t, n);
    AtMostInSorted(sorted, v, Ceil(t) - 1);
    CeilReach(t, Sum(sorted, AtMostTerm(v)));
  }

  /** Unlike the interpolated percentile it is clamped at both ends, and so monotone in every p. */
  lemma NearestRankMonotone(sorted: Samples, p: real, r: real)
    requires Sorted(sorted) && p <= r
    ensures NearestRank(sorted, p) <= NearestRank(sorted, r)
    ensures sorted == [] ==> NearestRank(sorted, p) == 0
  {
    if sorted != [] {
      OrderTimes(p, r, |sorted| as real);
      CeilOrder(TargetOf(|sorted|, p), TargetOf(|sorted|, r));
    }
  }

  lemma CeilOrder(x: real, y: real)
    requires x <= y
    ensures Ceil(x) <= Ceil(y)
  {
  }

  /** The sample of rank ceil(t) lies below bucket k exactly when the first k buckets reach t. */
  lemma ReachIff(bounds: seq<real>, xs: Samples, sorted: Samples, t: real, k: nat)
    requires Sorted(sorted) && multiset(sorted) == multiset(xs) && k <= |bounds| + 1
    requires 0 <= Ceil(t) - 1 < |sorted|
    ensures t <= Cum(Histogram(bounds, xs), k) as real <==> BucketOf(bounds, sorted[Ceil(t) - 1]) < k
  {
    hide Histogram, BucketOf, BelowTerm, Cum, Ceil, Sorted;
    CumIsBelow(bounds, xs, k);
    SumPermutes(sorted, xs, BelowTerm(bounds, k));
    BelowInSorted(bounds, sorted, k, Ceil(t) - 1);
    CeilReach(t, Cum(Histogram(bounds, xs), k));
  }

  lemma RankInRange(t: real, n: nat)
    requires 0.0 < t <= n as real
    ensures 0 <= Ceil(t) - 1 < n
  {
  }

  /**
    The bucket the interpolation selects on the merged counts is the one that holds the nearest-rank sample
    of the sorted union of all shards' samples.
   */
  lemma SelectedHoldsNearestRank(bounds: seq<real>, xs: Samples, sorted: Samples, p: real)
    requires xs != [] && Sorted(sorted) && multiset(sorted) == multiset(xs) && 0.0 < p <= 100.0
    ensures Selected(Histogram(bounds, xs), p) == BucketOf(bounds, NearestRank(sorted, p))
  {
    hide Histogram, TargetOf, BucketOf, BelowTerm, BucketFrom, Sorted, Ceil, Cum;
    var counts := Histogram(bounds, xs);
    SumPermutes(sorted, xs, BelowTerm(bounds, 0));
    HistogramTotal(bounds, xs);
    TargetRange(counts, p);
    var t := Target(counts, p);
    RankInRange(t, |sorted|);
    var i, b := Selected(counts, p), BucketOf(bounds, sorted[Ceil(t) - 1]);
    assert i == BucketFrom(counts, t, 0);
    ReachIff(bounds, xs, sorted, t, b);
    ReachIff(bounds, xs, sorted, t, b + 1);
    ReachIff(bounds, xs, sorted, t, i);
    if i < |counts| {
      ReachIff(bounds, xs, sorted, t, i + 1);
    }
  }

  /**
    So the reported percentile of a non-overflow bucket is off the exact nearest-rank sample of all shards
    together by at most that bucket's width.
   */
  lemma MergedPctAccuracy(rs: seq<Chan>, shards: seq<Samples>, bounds: seq<real>, sorted: Samples, p: real)
    requires rs != [] && Report(rs, shards, bounds) && HistsOK(rs) && 0.0 < p <= 100.0
    requires Union(shards) != [] && Sorted(sorted) && multiset(sorted) == multiset(Union(shards)) && sorted[0] >= 0
    requires forall i, j :: 0 <= i < j < |bounds| ==> bounds[i] < bounds[j]
    requires forall i :: 0 <= i < |bounds| ==> 0.0 <= bounds[i]
    ensures MergedHist(rs).Some?
    ensures var exact, reported := NearestRank(sorted, p) as real, PctOf(MergedHist(rs).value, p);
            var b := BucketOf(bounds, NearestRank(sorted, p));
            && Lower(bounds, b) <= exact && Lower(bounds, b) <= reported
            && (b < |bounds| ==> exact <= bounds[b] && reported <= bounds[b])
  {
    var xs := Union(shards);
    MergedIsHistogramOfUnion(rs, shards, bounds);
    SelectedHoldsNearestRank(bounds, xs, sorted, p);
    HistogramTotal(bounds, xs);
    hide Histogram, TargetOf;
    InsideBucket(bounds, Histogram(bounds, xs), p, MICROS);
    SumPermutes(sorted, xs, BelowTerm(bounds, 0));
    assert NearestRank(sorted, p) >= sorted[0];
  }
}
