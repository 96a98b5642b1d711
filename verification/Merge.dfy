/** Merging the results of several shards into one report. */
module Merge {
  import opened Percentile
  import opened Sums
  import opened Wrappers

  datatype Hist = Hist(bounds: seq<real>, counts: seq<nat>)

  /** One channel of one shard's result file; an absent channel is all zeros without a histogram. */
  datatype Chan = Chan(published: nat, received: nat, gaps: nat, dups: nat, hist: Option<Hist>)

  /** The length invariant of bucket data. */
  ghost predicate HistsOK(rs: seq<Chan>) {
    forall r <- rs :: r.hist.Some? ==> |r.hist.value.counts| == |r.hist.value.bounds| + 1
  }

  function AddCounts(a: seq<nat>, b: seq<nat>): (c: seq<nat>)
    requires |a| == |b|
    ensures |c| == |a|
  {
    seq(|a|, i requires 0 <= i < |a| => a[i] + b[i])
  }

  /** The merged histogram: the first file with one sets the bounds, files with other bounds are skipped. */
  function MergedHist(rs: seq<Chan>): (m: Option<Hist>)
    requires HistsOK(rs)
    ensures m.Some? ==> |m.value.counts| == |m.value.bounds| + 1
  {
    if rs == [] then None
    else
      var front, h := MergedHist(rs[..|rs| - 1]), rs[|rs| - 1].hist;
      assert rs[|rs| - 1] in rs;
      if h.None? then front
      else if front.None? then h
      else if h.value.bounds == front.value.bounds
      then Some(Hist(front.value.bounds, AddCounts(front.value.counts, h.value.counts)))
      else front
  }

  function PublishedOf(r: Chan): nat { r.published }
  function ReceivedOf(r: Chan): nat { r.received }
  function GapsOf(r: Chan): nat { r.gaps }
  function DupsOf(r: Chan): nat { r.dups }

  /** What merging a channel reports, before rounding. */
  datatype Summary = Summary(total: Chan, perSecond: real, ratio: Option<real>, percentiles: Option<(real, real, real)>)

  function SumReals(xs: seq<real>): real {
    if xs == [] then 0.0 else SumReals(xs[..|xs| - 1]) + xs[|xs| - 1]
  }

  /** The average elapsed time, which no files give as one second. */
  function Average(elapsed: seq<real>): real {
    if elapsed == [] then 1.0 else SumReals(elapsed) / |elapsed| as real
  }

  /** Messages per second of the average elapsed time. */
  function PerSecond(rx: nat, elapsed: seq<real>): real {
    if Average(elapsed) == 0.0 then 0.0 else rx as real / Average(elapsed)
  }

  function Percentiles(h: Hist): (real, real, real)
    requires |h.counts| == |h.bounds| + 1
  {
    (PctOf(h, 50.0), PctOf(h, 99.0), PctOf(h, 99.9))
  }

  method MergeChannel(rs: seq<Chan>, elapsed: seq<real>) returns (s: Summary)
    requires HistsOK(rs) && |elapsed| == |rs|
    ensures s.total.published == Sum(rs, PublishedOf) && s.total.received == Sum(rs, ReceivedOf)
    ensures s.total.gaps == Sum(rs, GapsOf) && s.total.dups == Sum(rs, DupsOf)
    ensures s.total.hist == MergedHist(rs)
    ensures s.perSecond == PerSecond(s.total.received, elapsed)
    ensures s.ratio.Some? <==> s.total.gaps > 0 || s.total.dups > 0
    ensures s.ratio.Some? ==> s.ratio.value == DeliveryRatio(s.total.received, s.total.gaps, s.total.dups)
    ensures s.ratio.Some? && s.total.received + s.total.gaps > 0 ==>
              s.ratio.value * (s.total.received + s.total.gaps) as real == s.total.received as real
    ensures s.percentiles == if MergedHist(rs).Some? then Some(Percentiles(MergedHist(rs).value)) else None
  {
    hide DeliveryRatio, Pct, MergedHist, SumReals;
    var total, elapsedSum := Fold(rs, elapsed);
    var n := |rs|;
    var average := if n > 0 then elapsedSum / n as real else 1.0;
    var perSecond := if average != 0.0 then total.received as real / average else 0.0;
    var ratio := None;
    if total.gaps > 0 || total.dups > 0 {
      var d := RatioOf(total.received, total.gaps, total.dups);
      ratio := Some(d);
    }
    var percentiles := None;
    if total.hist.Some? {
      var h := total.hist.value;
      var p50 := PctFromHistogramPy(h.bounds, h.counts, 50.0);
      var p99 := PctFromHistogramPy(h.bounds, h.counts, 99.0);
      var p999 := PctFromHistogramPy(h.bounds, h.counts, 99.9);
      percentiles := Some((p50, p99, p999));
    }
    s := Summary(total, perSecond, ratio, percentiles);
  }

  method RatioOf(rx: nat, gaps: nat, dups: nat) returns (d: real)
    requires gaps > 0 || dups > 0
    ensures d == DeliveryRatio(rx, gaps, dups)
  {
    var expected := rx + gaps;
    d := if expected > 0 then rx as real / expected as real else 0.0;
  }

  /** The loop over the result files. */
  method Fold(rs: seq<Chan>, elapsed: seq<real>) returns (total: Chan, elapsedSum: real)
    requires HistsOK(rs) && |elapsed| == |rs|
    ensures total.published == Sum(rs, PublishedOf) && total.received == Sum(rs, ReceivedOf)
    ensures total.gaps == Sum(rs, GapsOf) && total.dups == Sum(rs, DupsOf)
    ensures total.hist == MergedHist(rs) && elapsedSum == SumReals(elapsed)
  {
    var pub: nat, rx: nat, gaps: nat, dups: nat := 0, 0, 0, 0;
    var merged: Option<Hist> := None;
    elapsedSum := 0.0;
    var k := 0;
    while k < |rs|
      invariant 0 <= k <= |rs| && elapsedSum == SumReals(elapsed[..k])
      invariant pub == Sum(rs[..k], PublishedOf) && rx == Sum(rs[..k], ReceivedOf)
      invariant gaps == Sum(rs[..k], GapsOf) && dups == Sum(rs[..k], DupsOf)
      invariant merged == MergedHist(rs[..k])
    {
      var ch := rs[k];
      assert rs[..k + 1][..k] == rs[..k] && elapsed[..k + 1][..k] == elapsed[..k];
      assert ch in rs;
      pub, rx, gaps, dups := pub + ch.published, rx + ch.received, gaps + ch.gaps, dups + ch.dups;
      elapsedSum := elapsedSum + elapsed[k];
      if ch.hist.Some? {
        if merged.None? {
          merged := ch.hist;
        } else if ch.hist.value.bounds == merged.value.bounds {
          var counts := AddInto(merged.value.counts, ch.hist.value.counts);
          merged := Some(Hist(merged.value.bounds, counts));
        }
      }
      k := k + 1;
    }
    assert rs[..k] == rs && elapsed[..k] == elapsed;
    total := Chan(pub, rx, gaps, dups, merged);
  }

  /** merged_counts[i] += c, over all i. */
  method AddInto(merged0: seq<nat>, counts: seq<nat>) returns (merged: seq<nat>)
    requires |merged0| == |counts|
    ensures merged == AddCounts(merged0, counts)
  {
    merged := merged0;
    var i := 0;
    while i < |counts|
      invariant 0 <= i <= |counts| == |merged|
      invariant forall j :: 0 <= j < i ==> merged[j] == merged0[j] + counts[j]
      invariant forall j :: i <= j < |counts| ==> merged[j] == merged0[j]
    {
      merged := merged[i := merged[i] + counts[i]];
      i := i + 1;
    }
  }

  // ---- The order of the files ----

  ghost predicate BoundsAre(rs: seq<Chan>, b: seq<real>) {
    forall r <- rs :: r.hist.Some? ==> r.hist.value.bounds == b
  }

  /** The samples a file has in bucket i, if its bounds are the given ones. */
  function ColumnTerm(b: seq<real>, i: nat): Chan -> nat {
    (r: Chan) =>
      if r.hist.Some? && r.hist.value.bounds == b && i < |r.hist.value.counts| then r.hist.value.counts[i] else 0
  }

  /**
    Each merged bucket holds exactly the samples of that bucket in all files with the merged bounds, and the
    merged bounds are those of the first file that has a histogram.
   */
  lemma {:induction false} MergedColumns(rs: seq<Chan>, i: nat)
    requires HistsOK(rs)
    ensures MergedHist(rs).None? <==> forall r <- rs :: r.hist.None?
    ensures MergedHist(rs).Some? ==>
              var m := MergedHist(rs).value;
              && (i < |m.counts| ==> m.counts[i] == Sum(rs, ColumnTerm(m.bounds, i)))
              && exists k :: 0 <= k < |rs| && IsFirst(rs, k) && m.bounds == rs[k].hist.value.bounds
  {
    if rs != [] {
      var front, r := rs[..|rs| - 1], rs[|rs| - 1];
      assert r in rs && forall x <- front :: x in rs;
      MergedColumns(front, i);
      if MergedHist(front).Some? {
        var k :| 0 <= k < |front| && IsFirst(front, k) && MergedHist(front).value.bounds == front[k].hist.value.bounds;
        assert IsFirst(rs, k);
      } else if r.hist.Some? {
        NothingToAdd(front, r.hist.value.bounds, i);
        assert IsFirst(rs, |front|);
      }
    }
  }

  /** File k is the first that has a histogram. */
  ghost predicate IsFirst(rs: seq<Chan>, k: nat) {
    k < |rs| && rs[k].hist.Some? && forall j :: 0 <= j < k ==> rs[j].hist.None?
  }

  lemma {:induction false} NothingToAdd(rs: seq<Chan>, b: seq<real>, i: nat)
    requires forall r <- rs :: r.hist.None?
    ensures Sum(rs, ColumnTerm(b, i)) == 0
  {
    if rs != [] {
      assert rs[|rs| - 1] in rs;
      NothingToAdd(rs[..|rs| - 1], b, i);
    }
  }

  lemma MergedBounds(rs: seq<Chan>, b: seq<real>)
    requires HistsOK(rs) && BoundsAre(rs, b)
    ensures MergedHist(rs).Some? ==> MergedHist(rs).value.bounds == b
  {
    MergedColumns(rs, 0);
  }

  lemma OrderIndependent(rs: seq<Chan>, ys: seq<Chan>, b: seq<real>)
    requires HistsOK(rs) && BoundsAre(rs, b) && multiset(rs) == multiset(ys)
    ensures HistsOK(ys) && MergedHist(ys) == MergedHist(rs)
  {
    SameMembers(rs, ys);
    MergedColumns(rs, 0);
    MergedColumns(ys, 0);
    if MergedHist(rs).Some? {
      MergedBounds(rs, b);
      MergedBounds(ys, b);
      var m, n := MergedHist(rs).value, MergedHist(ys).value;
      forall i | 0 <= i < |m.counts| ensures m.counts[i] == n.counts[i] {
        MergedColumns(rs, i);
        MergedColumns(ys, i);
        SumPermutes(rs, ys, ColumnTerm(b, i));
      }
      assert m.counts == n.counts;
    }
  }

  /** The totals never depend on the order of the files. */
  lemma TotalsOrderIndependent(rs: seq<Chan>, ys: seq<Chan>)
    requires multiset(rs) == multiset(ys)
    ensures Sum(rs, PublishedOf) == Sum(ys, PublishedOf) && Sum(rs, ReceivedOf) == Sum(ys, ReceivedOf)
    ensures Sum(rs, GapsOf) == Sum(ys, GapsOf) && Sum(rs, DupsOf) == Sum(ys, DupsOf)
  {
    SumPermutes(rs, ys, PublishedOf);
    SumPermutes(rs, ys, ReceivedOf);
    SumPermutes(rs, ys, GapsOf);
    SumPermutes(rs, ys, DupsOf);
  }

  lemma SameMembers<T>(s: seq<T>, t: seq<T>)
    requires multiset(s) == multiset(t)
    ensures forall x :: x in s <==> x in t
  {
    forall x ensures x in s <==> x in t {
      assert x in s <==> x in multiset(s);
      assert x in t <==> x in multiset(t);
    }
  }

  ghost predicate SameBounds(rs: seq<Chan>) {
    forall r, s :: r in rs && s in rs && r.hist.Some? && s.hist.Some? ==> r.hist.value.bounds == s.hist.value.bounds
  }

  /** The merged histogram is the same for every order of the files if and only if all bounds are equal. */
  lemma OrderIndependentIff(rs: seq<Chan>)
    requires HistsOK(rs)
    ensures (forall ys :: multiset(ys) == multiset(rs) && HistsOK(ys) ==> MergedHist(ys) == MergedHist(rs))
            <==> SameBounds(rs)
  {
    if SameBounds(rs) {
      var b := if r :| r in rs && r.hist.Some? then r.hist.value.bounds else [];
      forall ys | multiset(ys) == multiset(rs) && HistsOK(ys) ensures MergedHist(ys) == MergedHist(rs) {
        OrderIndependent(rs, ys, b);
      }
    } else {
      var r, s :| r in rs && s in rs && r.hist.Some? && s.hist.Some? && r.hist.value.bounds != s.hist.value.bounds;
      var xs := InFront(rs, r);
      var ys := InFront(rs, s);
      assert MergedHist(xs) != MergedHist(ys);
    }
  }

  lemma InFront(rs: seq<Chan>, r: Chan) returns (ys: seq<Chan>)
    requires HistsOK(rs) && r in rs && r.hist.Some?
    ensures multiset(ys) == multiset(rs) && HistsOK(ys)
    ensures MergedHist(ys).Some? && MergedHist(ys).value.bounds == r.hist.value.bounds
  {
    var k :| 0 <= k < |rs| && rs[k] == r;
    var rest := rs[..k] + rs[k + 1..];
    ys := [r] + rest;
    assert rs == rs[..k] + [r] + rs[k + 1..];
    assert multiset(ys) == multiset(rs);
    SameMembers(rs, ys);
    MergedColumns(ys, 0);
    assert ys[0] in ys;
  }

  // ---- Percentiles of merged histograms ----

  lemma {:induction false} CumAdds(a: seq<nat>, b: seq<nat>, k: nat)
    requires k <= |a| == |b|
    ensures Cum(AddCounts(a, b), k) == Cum(a, k) + Cum(b, k)
  {
    if k > 0 {
      CumAdds(a, b, k - 1);
    }
  }

  lemma TimesAdds(c: nat, d: nat, f: real)
    ensures Times(c + d, f) == Times(c, f) + Times(d, f)
  {
  }

  lemma {:induction false} MassAdds(bounds: seq<real>, a: seq<nat>, b: seq<nat>, k: nat, v: real, unit: real)
    requires k <= |a| == |b| == |bounds| + 1
    ensures Mass(bounds, AddCounts(a, b), k, v, unit) == Mass(bounds, a, k, v, unit) + Mass(bounds, b, k, v, unit)
  {
    hide Times, Fill;
    if k > 0 {
      MassAdds(bounds, a, b, k - 1, v, unit);
      TimesAdds(a[k - 1], b[k - 1], Fill(bounds, k - 1, v, unit));
    }
  }

  lemma TargetAdds(m: nat, n: nat, p: real)
    ensures TargetOf(m + n, p) == TargetOf(m, p) + TargetOf(n, p)
  {
  }

  /** A shard whose histogram holds samples. */
  ghost predicate NonEmpty(r: Chan) {
    r.hist.Some? && Total(r.hist.value.counts) > 0
  }

  function PctOf(h: Hist, p: real): real
    requires |h.counts| == |h.bounds| + 1
  {
    Pct(h.bounds, h.counts, p, MICROS)
  }

  /** Below the value v no shard has reached its target; at or above it every shard has. */
  ghost predicate AllAtMost(rs: seq<Chan>, p: real, v: real)
    requires HistsOK(rs)
  {
    forall r <- rs :: NonEmpty(r) ==> PctOf(r.hist.value, p) <= v
  }

  ghost predicate AllAbove(rs: seq<Chan>, p: real, v: real)
    requires HistsOK(rs)
  {
    forall r <- rs :: NonEmpty(r) ==> v < PctOf(r.hist.value, p)
  }

  lemma ShardReach(h: Hist, p: real, v: real)
    requires WellFormed(h.bounds, h.counts) && 0.0 < p <= 100.0
    ensures var reached := Distribution(h.bounds, h.counts, v, MICROS) - Target(h.counts, p);
            if Total(h.counts) > 0 then PctOf(h, p) <= v <==> reached >= 0.0 else reached == 0.0
  {
    if Total(h.counts) > 0 {
      PctIsInverse(h.bounds, h.counts, p, v, MICROS);
    } else {
      MassRange(h.bounds, h.counts, |h.counts|, v, MICROS);
    }
  }

  lemma {:induction false} MergedReach(rs: seq<Chan>, bounds: seq<real>, p: real, v: real)
    requires HistsOK(rs) && BoundsAre(rs, bounds) && 0.0 < p <= 100.0
    requires forall r <- rs :: r.hist.Some? ==> WellFormed(bounds, r.hist.value.counts)
    requires AllAtMost(rs, p, v) || AllAbove(rs, p, v)
    ensures MergedHist(rs).Some? ==>
              var m := MergedHist(rs).value;
              && m.bounds == bounds
              && var reached := Distribution(bounds, m.counts, v, MICROS) - Target(m.counts, p);
              && (AllAtMost(rs, p, v) ==> reached >= 0.0)
              && (AllAbove(rs, p, v) ==> if Total(m.counts) > 0 then reached < 0.0 else reached == 0.0)
  {
    hide WellFormed, Pct, Mass, Cum, TargetOf;
    if rs != [] {
      var front, r := rs[..|rs| - 1], rs[|rs| - 1];
      assert r in rs && forall x <- front :: x in rs;
      MergedReach(front, bounds, p, v);
      if r.hist.Some? {
        ShardReach(r.hist.value, p, v);
        if MergedHist(front).Some? {
          var a, b := MergedHist(front).value.counts, r.hist.value.counts;
          CumAdds(a, b, |a|);
          MassAdds(bounds, a, b, |a|, v, MICROS);
          TargetAdds(Total(a), Total(b), p);
        }
      }
    }
  }

  /**
    For any number of shards with equal bounds, the percentile of the merged histogram lies between the
    smallest and the largest of the shards' own percentiles. Shards without samples do not matter.
   */
  lemma MergedPctBetween(rs: seq<Chan>, bounds: seq<real>, p: real, lo: real, hi: real)
    requires HistsOK(rs) && BoundsAre(rs, bounds) && 0.0 < p <= 100.0
    requires forall r <- rs :: r.hist.Some? ==> WellFormed(bounds, r.hist.value.counts)
    requires forall r <- rs :: NonEmpty(r) ==> lo <= PctOf(r.hist.value, p) <= hi
    ensures MergedHist(rs).Some? && Total(MergedHist(rs).value.counts) > 0 ==>
              lo <= PctOf(MergedHist(rs).value, p) <= hi
  {
    if MergedHist(rs).Some? && Total(MergedHist(rs).value.counts) > 0 {
      var m := MergedHist(rs).value;
      var q := PctOf(m, p);
      MergedReach(rs, bounds, p, hi);
      MergedWellFormed(rs, bounds);
      PctIsInverse(bounds, m.counts, p, hi, MICROS);
      PctIsInverse(bounds, m.counts, p, q, MICROS);
      if q < lo {
        MergedReach(rs, bounds, p, q);
      }
    }
  }

  lemma MergedWellFormed(rs: seq<Chan>, bounds: seq<real>)
    requires HistsOK(rs) && BoundsAre(rs, bounds)
    requires forall r <- rs :: r.hist.Some? ==> WellFormed(bounds, r.hist.value.counts)
    ensures MergedHist(rs).Some? ==> WellFormed(MergedHist(rs).value.bounds, MergedHist(rs).value.counts)
  {
    MergedColumns(rs, 0);
  }

  // ---- Delivery ratios ----

  /** makeChanResult: the ratio is only computed when something was missed or repeated. */
  function DeliveryRatio(rx: nat, gaps: nat, dups: nat): (d: real)
    ensures 0.0 <= d <= 1.0
    ensures d == 0.0 <==> rx == 0 || (gaps == 0 && dups == 0)
    ensures d == 1.0 <==> rx > 0 && gaps == 0 && dups > 0
    ensures gaps > 0 || (dups > 0 && rx > 0) ==> d * (rx + gaps) as real == rx as real
  {
    if gaps > 0 || dups > 0 then
      if rx + gaps > 0 then RatioRange(rx, gaps); Ratio(rx, gaps) else 0.0
    else 0.0
  }

  function Ratio(rx: nat, gaps: nat): real
    requires rx + gaps > 0
  {
    rx as real / (rx + gaps) as real
  }

  lemma RatioRange(rx: nat, gaps: nat)
    requires rx + gaps > 0
    ensures 0.0 <= Ratio(rx, gaps) <= 1.0
    ensures (Ratio(rx, gaps) == 0.0 <==> rx == 0) && (Ratio(rx, gaps) == 1.0 <==> gaps == 0)
    ensures Ratio(rx, gaps) * (rx + gaps) as real == rx as real
  {
    var d := (rx + gaps) as real;
    var f := Ratio(rx, gaps);
    assert f * d == rx as real;
    OrderTimes(f, 1.0, d);
    OrderTimes(1.0, f, d);
    OrderTimes(0.0, f, d);
    OrderTimes(f, 0.0, d);
  }

  function Product(c: real, m: nat): real { c * m as real }

  lemma RatioOrder(rx: nat, gaps: nat, c: real)
    requires rx + gaps > 0
    ensures c <= Ratio(rx, gaps) <==> Product(c, rx + gaps) <= rx as real
    ensures Ratio(rx, gaps) <= c <==> rx as real <= Product(c, rx + gaps)
  {
    var d := (rx + gaps) as real;
    assert Ratio(rx, gaps) * d == rx as real;
    OrderTimes(c, Ratio(rx, gaps), d);
    OrderTimes(Ratio(rx, gaps), c, d);
  }

  lemma Distribute(c: real, m: nat, n: nat)
    ensures Product(c, m + n) == Product(c, m) + Product(c, n) && Product(c, 0) == 0.0
  {
  }

  lemma {:induction false} TotalsBetween(rs: seq<Chan>, lo: real, hi: real)
    requires forall r <- rs :: r.received + r.gaps > 0 ==> lo <= Ratio(r.received, r.gaps) <= hi
    ensures var rx, gaps := Sum(rs, ReceivedOf), Sum(rs, GapsOf);
            Product(lo, rx + gaps) <= rx as real <= Product(hi, rx + gaps)
  {
    hide Ratio, Product;
    Distribute(lo, 0, 0);
    Distribute(hi, 0, 0);
    if rs != [] {
      var front, r := rs[..|rs| - 1], rs[|rs| - 1];
      assert r in rs && forall x <- front :: x in rs;
      TotalsBetween(front, lo, hi);
      if r.received + r.gaps > 0 {
        RatioOrder(r.received, r.gaps, lo);
        RatioOrder(r.received, r.gaps, hi);
      }
      var m, n := Sum(front, ReceivedOf) + Sum(front, GapsOf), r.received + r.gaps;
      Distribute(lo, m, n);
      Distribute(hi, m, n);
      assert Sum(rs, ReceivedOf) + Sum(rs, GapsOf) == m + n;
    }
  }

  /** The ratio a shard reports; one without gaps and duplicates reports none, and has delivered everything. */
  function Delivered(r: Chan): real {
    if r.gaps == 0 && r.dups == 0 then 1.0 else DeliveryRatio(r.received, r.gaps, r.dups)
  }

  /** The merged delivery ratio lies between the shards' own; shards that expected nothing do not matter. */
  lemma MergedRatioBetween(rs: seq<Chan>, lo: real, hi: real)
    requires forall r <- rs :: r.received + r.gaps > 0 ==> lo <= Delivered(r) <= hi
    ensures var rx, gaps, dups := Sum(rs, ReceivedOf), Sum(rs, GapsOf), Sum(rs, DupsOf);
            rx + gaps > 0 && (gaps > 0 || dups > 0) ==> lo <= DeliveryRatio(rx, gaps, dups) <= hi
  {
    var rx, gaps := Sum(rs, ReceivedOf), Sum(rs, GapsOf);
    if rx + gaps > 0 {
      forall r <- rs | r.received + r.gaps > 0 ensures lo <= Ratio(r.received, r.gaps) <= hi {
        RatioRange(r.received, r.gaps);
      }
      TotalsBetween(rs, lo, hi);
      RatioOrder(rx, gaps, lo);
      RatioOrder(rx, gaps, hi);
    }
  }

  // ---- Rates and percentiles of the report ----

  lemma {:induction false} SumOfEqual(xs: seq<real>, e: real)
    requires forall i :: 0 <= i < |xs| ==> xs[i] == e
    ensures SumReals(xs) == |xs| as real * e
  {
    if xs != [] {
      SumOfEqual(xs[..|xs| - 1], e);
      assert |xs| as real * e == (|xs| - 1) as real * e + e;
    }
  }

  /** When all shards ran equally long, the merged rate is the sum of the rates of the shards. */
  lemma RatesAdd(rs: seq<Chan>, elapsed: seq<real>, e: real)
    requires |elapsed| == |rs| && rs != [] && e != 0.0 && forall i :: 0 <= i < |elapsed| ==> elapsed[i] == e
    ensures PerSecond(Sum(rs, ReceivedOf), elapsed) == SumOfRates(rs, e)
  {
    SumOfEqual(elapsed, e);
    var n := |rs| as real;
    assert n * e / n == e;
    RatesTotal(rs, e);
  }

  /** The sum of what each shard reports as its own rate. */
  function SumOfRates(rs: seq<Chan>, e: real): real
    requires e != 0.0
  {
    if rs == [] then 0.0 else SumOfRates(rs[..|rs| - 1], e) + rs[|rs| - 1].received as real / e
  }

  lemma {:induction false} RatesTotal(rs: seq<Chan>, e: real)
    requires e != 0.0
    ensures SumOfRates(rs, e) == Sum(rs, ReceivedOf) as real / e
  {
    if rs != [] {
      RatesTotal(rs[..|rs| - 1], e);
      var a, b := Sum(rs[..|rs| - 1], ReceivedOf) as real, rs[|rs| - 1].received as real;
      assert (a + b) / e == a / e + b / e;
    }
  }

  lemma {:induction false} SumRealsAppend(xs: seq<real>, ys: seq<real>)
    ensures SumReals(xs + ys) == SumReals(xs) + SumReals(ys)
    ensures |ys| == 1 ==> SumReals(ys) == ys[0]
  {
    if ys == [] {
      assert xs + ys == xs;
    } else {
      assert (xs + ys)[..|xs + ys| - 1] == xs + ys[..|ys| - 1];
      SumRealsAppend(xs, ys[..|ys| - 1]);
    }
  }

  /**
    The merged rate, taken over all the time spent, is what all shards received, for each shard once. Without files
    it is taken over one second, and where no time was spent it is zero.
   */
  lemma RateOfTotals(rx: nat, elapsed: seq<real>)
    ensures SumReals(elapsed) != 0.0 ==> PerSecond(rx, elapsed) * SumReals(elapsed) == (rx * |elapsed|) as real
    ensures SumReals(elapsed) == 0.0 ==> PerSecond(rx, elapsed) == if elapsed == [] then rx as real else 0.0
  {
    if elapsed != [] && SumReals(elapsed) != 0.0 {
      hide SumReals;
      QuotientOfAverage(rx, SumReals(elapsed), |elapsed|);
    }
  }

  lemma QuotientOfAverage(x: nat, s: real, n: nat)
    requires s != 0.0 && n > 0
    ensures s / n as real != 0.0 && x as real / (s / n as real) * s == (x * n) as real
  {
    var a := s / n as real;
    assert a * n as real == s;
    var q := x as real / a;
    assert q * a == x as real;
    assert q * (a * n as real) == (q * a) * n as real;
    assert (x as real) * n as real == (x * n) as real;
  }

  /**
    The three reported percentiles are in order, and at or below each of them lie 50, 99 and 99.9 percent of the
    samples: of the merged ones a report speaks of, spread evenly over their buckets.
   */
  lemma PercentilesInOrder(h: Hist, v: real)
    requires WellFormed(h.bounds, h.counts)
    ensures var (p50, p99, p999) := Percentiles(h);
            && p50 <= p99 <= p999
            && (Total(h.counts) > 0 ==>
                  var n, d := Total(h.counts) as real, Distribution(h.bounds, h.counts, v, MICROS);
                  && (p50 <= v <==> n / 2.0 <= d)
                  && (p99 <= v <==> n * 99.0 / 100.0 <= d)
                  && (p999 <= v <==> n * 999.0 / 1000.0 <= d))
  {
    hide Distribution, Pct, Cum;
    if Total(h.counts) > 0 {
      PctMonotone(h.bounds, h.counts, 50.0, 99.0, MICROS);
      PctMonotone(h.bounds, h.counts, 99.0, 99.9, MICROS);
      PctIsInverse(h.bounds, h.counts, 50.0, v, MICROS);
      PctIsInverse(h.bounds, h.counts, 99.0, v, MICROS);
      PctIsInverse(h.bounds, h.counts, 99.9, v, MICROS);
    } else {
      PctAtZero(h.bounds, h.counts, MICROS);
      TotalZeroIff(h.counts, |h.counts|);
    }
  }
}
