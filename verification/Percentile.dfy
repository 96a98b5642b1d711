/** Interpolated percentiles of bucketed samples, and what merging buckets does to them. */
module Percentile {

  /**
    Upper-inclusive buckets: counts[i] samples lie in (bounds[i-1], bounds[i]], the last bucket being
    unbounded (OpenTelemetry Metrics Data Model, section "Histogram", bucket inclusivity).
   */
  ghost predicate WellFormed(bounds: seq<real>, counts: seq<nat>) {
    && |counts| == |bounds| + 1
    && (forall i, j :: 0 <= i < j < |bounds| ==> bounds[i] < bounds[j])
    && (forall i :: 0 <= i < |bounds| ==> 0.0 <= bounds[i])
  }

  function Lower(bounds: seq<real>, i: nat): real
    requires i <= |bounds|
  {
    if i == 0 then 0.0 else bounds[i - 1]
  }

  /** The overflow bucket is taken to be as wide as the bucket before it; with no bounds at all it ends at `unit`. */
  function Upper(bounds: seq<real>, i: nat, unit: real): real
    requires i <= |bounds|
  {
    var n := |bounds|;
    if i < n then bounds[i]
    else if n >= 2 then bounds[n - 1] + (bounds[n - 1] - bounds[n - 2])
    else if n == 1 then bounds[0] * 2.0
    else unit
  }

  /** The samples in the first k buckets. */
  function Cum(counts: seq<nat>, k: nat): nat
    requires k <= |counts|
  {
    if k == 0 then 0 else Cum(counts, k - 1) + counts[k - 1]
  }

  function Total(counts: seq<nat>): nat {
    Cum(counts, |counts|)
  }

  /** The first bucket, from i on, by which the target is reached; the number of buckets if none does. */
  function BucketFrom(counts: seq<nat>, target: real, i: nat): (b: nat)
    requires i <= |counts|
    ensures i <= b <= |counts|
    ensures forall k :: i < k <= b ==> (Cum(counts, k) as real) < target
    ensures b < |counts| ==> Cum(counts, b + 1) as real >= target
    decreases |counts| - i
  {
    if i == |counts| || Cum(counts, i + 1) as real >= target then i else BucketFrom(counts, target, i + 1)
  }

  /** p percent of a number of samples. */
  function TargetOf(total: nat, p: real): real {
    total as real * p / 100.0
  }

  function Target(counts: seq<nat>, p: real): real {
    TargetOf(Total(counts), p)
  }

  function Selected(counts: seq<nat>, p: real): nat {
    BucketFrom(counts, Target(counts, p), 0)
  }

  /** The point a fraction x / c of the way from lo to hi. */
  function Along(lo: real, hi: real, x: real, c: real): real
    requires c > 0.0
  {
    lo + x / c * (hi - lo)
  }

  /** How far v is on the way from lo to hi. */
  function Fraction(lo: real, hi: real, v: real): real
    requires lo < hi
  {
    (v - lo) / (hi - lo)
  }

  function Times(c: nat, f: real): real { c as real * f }

  /** Linear interpolation inside bucket i; a bucket without samples gives its lower limit. */
  function Interpolate(bounds: seq<real>, counts: seq<nat>, i: nat, target: real, unit: real): real
    requires i < |counts| == |bounds| + 1
  {
    if counts[i] > 0
    then Along(Lower(bounds, i), Upper(bounds, i, unit), target - Cum(counts, i) as real, counts[i] as real)
    else Lower(bounds, i)
  }

  function Pct(bounds: seq<real>, counts: seq<nat>, p: real, unit: real): real
    requires |counts| == |bounds| + 1
  {
    if Total(counts) == 0 then 0.0
    else
      var i := Selected(counts, p);
      if i < |counts| then Interpolate(bounds, counts, i, Target(counts, p), unit)
      else if bounds != [] then bounds[|bounds| - 1] else 0.0
  }

  // ---- The percentile is the inverse of the interpolated distribution function ----

  /** The share of bucket i's samples taken to be at most v. */
  function Fill(bounds: seq<real>, i: nat, v: real, unit: real): real
    requires i <= |bounds|
  {
    if v >= Upper(bounds, i, unit) then 1.0
    else if v <= Lower(bounds, i) then 0.0
    else Fraction(Lower(bounds, i), Upper(bounds, i, unit), v)
  }

  /** The interpolated number of samples at most v in the first k buckets. */
  function Mass(bounds: seq<real>, counts: seq<nat>, k: nat, v: real, unit: real): real
    requires k <= |counts| == |bounds| + 1
  {
    if k == 0 then 0.0
    else Mass(bounds, counts, k - 1, v, unit) + Times(counts[k - 1], Fill(bounds, k - 1, v, unit))
  }

  function Distribution(bounds: seq<real>, counts: seq<nat>, v: real, unit: real): real
    requires |counts| == |bounds| + 1
  {
    Mass(bounds, counts, |counts|, v, unit)
  }

  lemma BucketOrder(bounds: seq<real>, counts: seq<nat>, i: nat, j: nat, unit: real)
    requires WellFormed(bounds, counts) && i <= j <= |bounds| && unit > 0.0
    ensures Lower(bounds, i) <= Upper(bounds, i, unit) && Lower(bounds, i) <= Lower(bounds, j)
    ensures i < j ==> Upper(bounds, i, unit) <= Lower(bounds, j)
  {
  }

  lemma OrderTimes(a: real, b: real, w: real)
    requires w > 0.0
    ensures a * w <= b * w <==> a <= b
  {
    assert (b - a) * w == b * w - a * w;
    if a <= b {
      assert (b - a) * w >= 0.0;
    } else {
      assert (a - b) * w > 0.0;
    }
  }

  lemma Quotient(x: real, y: real)
    requires 0.0 < x < y
    ensures 0.0 < x / y < 1.0
  {
    var f := x / y;
    assert f * y == x;
    OrderTimes(1.0, f, y);
  }

  lemma FillRange(bounds: seq<real>, i: nat, v: real, unit: real)
    requires i <= |bounds|
    ensures 0.0 <= Fill(bounds, i, v, unit) <= 1.0
  {
    var lo, hi := Lower(bounds, i), Upper(bounds, i, unit);
    if lo < v < hi {
      Quotient(v - lo, hi - lo);
    }
  }

  lemma TimesRange(c: nat, f: real)
    requires 0.0 <= f <= 1.0
    ensures 0.0 <= Times(c, f) <= c as real
    ensures (f == 0.0 ==> Times(c, f) == 0.0) && (f == 1.0 ==> Times(c, f) == c as real)
  {
    Squeeze(f, c as real);
    TimesEnds(c);
  }

  lemma TimesEnds(c: nat)
    ensures Times(c, 0.0) == 0.0 && Times(c, 1.0) == c as real
  {
  }

  lemma {:induction false} MassRange(bounds: seq<real>, counts: seq<nat>, k: nat, v: real, unit: real)
    requires k <= |counts| == |bounds| + 1
    ensures 0.0 <= Mass(bounds, counts, k, v, unit) <= Cum(counts, k) as real
  {
    hide Fill, Times;
    if k > 0 {
      MassRange(bounds, counts, k - 1, v, unit);
      FillRange(bounds, k - 1, v, unit);
      TimesRange(counts[k - 1], Fill(bounds, k - 1, v, unit));
      assert Cum(counts, k) as real == Cum(counts, k - 1) as real + counts[k - 1] as real;
    }
  }

  lemma {:induction false} MassGrows(bounds: seq<real>, counts: seq<nat>, k: nat, m: nat, v: real, unit: real)
    requires k <= m <= |counts| == |bounds| + 1
    ensures Mass(bounds, counts, k, v, unit) <= Mass(bounds, counts, m, v, unit)
    decreases m
  {
    hide Fill, Times;
    if k < m {
      MassGrows(bounds, counts, k, m - 1, v, unit);
      FillRange(bounds, m - 1, v, unit);
      TimesRange(counts[m - 1], Fill(bounds, m - 1, v, unit));
    }
  }

  /** Buckets entirely at or below v are full. */
  lemma {:induction false} MassFull(bounds: seq<real>, counts: seq<nat>, k: nat, v: real, unit: real)
    requires k <= |counts| == |bounds| + 1
    requires forall j :: 0 <= j < k ==> Upper(bounds, j, unit) <= v
    ensures Mass(bounds, counts, k, v, unit) == Cum(counts, k) as real
  {
    if k > 0 {
      MassFull(bounds, counts, k - 1, v, unit);
      assert Fill(bounds, k - 1, v, unit) == 1.0;
      TimesRange(counts[k - 1], 1.0);
    }
  }

  /** Buckets entirely above v are empty. */
  lemma {:induction false} MassEmpty(bounds: seq<real>, counts: seq<nat>, k: nat, m: nat, v: real, unit: real)
    requires k <= m <= |counts| == |bounds| + 1
    requires forall j :: k <= j < m ==> v < Upper(bounds, j, unit) && v <= Lower(bounds, j)
    ensures Mass(bounds, counts, m, v, unit) == Mass(bounds, counts, k, v, unit)
    decreases m
  {
    if k < m {
      MassEmpty(bounds, counts, k, m - 1, v, unit);
      assert Fill(bounds, m - 1, v, unit) == 0.0;
      TimesRange(counts[m - 1], 0.0);
    }
  }

  lemma TargetRange(counts: seq<nat>, p: real)
    requires Total(counts) > 0 && 0.0 < p <= 100.0
    ensures 0.0 < Target(counts, p) <= Total(counts) as real
  {
    hide Cum;
    var n := Total(counts) as real;
    OrderTimes(p, 100.0, n);
    assert n * p > 0.0;
  }

  /** The selected bucket for 0 < p <= 100 holds samples, and the target lies inside it. */
  lemma SelectedInside(counts: seq<nat>, p: real)
    requires Total(counts) > 0 && 0.0 < p <= 100.0
    ensures var i, t := Selected(counts, p), Target(counts, p);
            i < |counts| && counts[i] > 0 && (Cum(counts, i) as real) < t <= Cum(counts, i) as real + counts[i] as real
  {
    hide Target, BucketFrom;
    TargetRange(counts, p);
    var i, t := Selected(counts, p), Target(counts, p);
    assert i == BucketFrom(counts, t, 0);
    assert i > 0 ==> (Cum(counts, i) as real) < t;
  }

  lemma InsideWidth(lo: real, hi: real, c: nat, x: real, v: real)
    requires c > 0 && lo <= v < hi && 0.0 <= x <= c as real
    ensures Along(lo, hi, x, c as real) <= v <==> x <= Times(c, Fraction(lo, hi, v))
  {
    var w, y, d := hi - lo, v - lo, c as real;
    var a, b := x / d, y / w;
    assert a * d == x && b * w == y;
    OrderTimes(a, b, w);
    OrderTimes(a, b, d);
  }

  lemma AlongRange(lo: real, hi: real, x: real, c: real)
    requires 0.0 < x <= c && lo <= hi
    ensures lo <= Along(lo, hi, x, c) <= hi
  {
    var f := x / c;
    assert f * c == x;
    OrderTimes(f, 1.0, c);
    OrderTimes(0.0, f, c);
    Squeeze(f, hi - lo);
  }

  lemma Squeeze(f: real, w: real)
    requires 0.0 <= f <= 1.0 && 0.0 <= w
    ensures 0.0 <= f * w <= w && f * w == w * f
  {
    if w > 0.0 {
      OrderTimes(0.0, f, w);
      OrderTimes(f, 1.0, w);
    }
  }

  /** For 0 < p <= 100 the percentile is interpolated inside a bucket that holds samples. */
  lemma PctValue(bounds: seq<real>, counts: seq<nat>, p: real, unit: real)
    requires WellFormed(bounds, counts) && Total(counts) > 0 && 0.0 < p <= 100.0
    ensures var i, t := Selected(counts, p), Target(counts, p);
            && i < |counts| && counts[i] > 0
            && (Cum(counts, i) as real) < t <= Cum(counts, i) as real + counts[i] as real
            && Pct(bounds, counts, p, unit)
               == Along(Lower(bounds, i), Upper(bounds, i, unit), t - Cum(counts, i) as real, counts[i] as real)
  {
    SelectedInside(counts, p);
    hide Target, Cum, Selected, Upper, Lower, Along;
  }

  /** The percentile stays within the limits of its bucket. */
  lemma InsideBucket(bounds: seq<real>, counts: seq<nat>, p: real, unit: real)
    requires WellFormed(bounds, counts) && Total(counts) > 0 && 0.0 < p <= 100.0 && unit > 0.0
    ensures var i := Selected(counts, p);
            i < |counts| && Lower(bounds, i) <= Pct(bounds, counts, p, unit) <= Upper(bounds, i, unit)
  {
    assert |counts| == |bounds| + 1;
    hide Target, Cum, Selected, Upper, Lower, Along, Pct, WellFormed;
    PctValue(bounds, counts, p, unit);
    var i, t := Selected(counts, p), Target(counts, p);
    BucketOrder(bounds, counts, i, i, unit);
    AlongRange(Lower(bounds, i), Upper(bounds, i, unit), t - Cum(counts, i) as real, counts[i] as real);
  }

  lemma MassStep(bounds: seq<real>, counts: seq<nat>, i: nat, v: real, unit: real)
    requires i < |counts| == |bounds| + 1
    ensures Mass(bounds, counts, i + 1, v, unit)
            == Mass(bounds, counts, i, v, unit) + Times(counts[i], Fill(bounds, i, v, unit))
  {
  }

  lemma DistributionAtLeast(bounds: seq<real>, counts: seq<nat>, k: nat, v: real, unit: real)
    requires k <= |counts| == |bounds| + 1
    ensures Mass(bounds, counts, k, v, unit) <= Distribution(bounds, counts, v, unit)
  {
    MassGrows(bounds, counts, k, |counts|, v, unit);
  }

  /** How far the distribution has got by v, seen from bucket i: before it, inside it, and behind it. */
  lemma DistributionBefore(bounds: seq<real>, counts: seq<nat>, i: nat, v: real, unit: real)
    requires WellFormed(bounds, counts) && unit > 0.0 && i < |counts| && v < Lower(bounds, i)
    ensures Distribution(bounds, counts, v, unit) <= Cum(counts, i) as real
  {
    assert |counts| == |bounds| + 1;
    hide WellFormed, Lower, Distribution, Mass, Cum;
    NothingAbove(bounds, counts, i, v, unit);
    MassRange(bounds, counts, i, v, unit);
  }

  lemma DistributionInside(bounds: seq<real>, counts: seq<nat>, i: nat, v: real, unit: real)
    requires WellFormed(bounds, counts) && unit > 0.0 && i < |counts|
    requires Lower(bounds, i) <= v < Upper(bounds, i, unit)
    ensures Distribution(bounds, counts, v, unit)
            == Cum(counts, i) as real + Times(counts[i], Fraction(Lower(bounds, i), Upper(bounds, i, unit), v))
  {
    assert |counts| == |bounds| + 1;
    LowerIsUpper(bounds, i, unit);
    hide WellFormed, Lower, Upper, Fill, Distribution, Times, Fraction, Mass, Cum;
    NothingAbove(bounds, counts, i + 1, v, unit);
    MassStep(bounds, counts, i, v, unit);
    EverythingBelow(bounds, counts, i, v, unit);
    FillInside(bounds, i, counts[i], v, unit);
  }

  lemma DistributionBehind(bounds: seq<real>, counts: seq<nat>, i: nat, v: real, unit: real)
    requires WellFormed(bounds, counts) && unit > 0.0 && i < |counts| && Upper(bounds, i, unit) <= v
    ensures Cum(counts, i) as real + counts[i] as real <= Distribution(bounds, counts, v, unit)
  {
    assert |counts| == |bounds| + 1;
    hide WellFormed, Lower, Upper, Fill, Distribution, Times, Mass;
    forall j | 0 <= j < i + 1 ensures Upper(bounds, j, unit) <= v {
      BucketOrder(bounds, counts, i, i, unit);
      BucketOrder(bounds, counts, j, i, unit);
    }
    MassFull(bounds, counts, i + 1, v, unit);
    DistributionAtLeast(bounds, counts, i + 1, v, unit);
  }

  /**
    The percentile is the least value below which p percent of the samples lie, samples being spread
    evenly over their buckets: it is at most v exactly when the distribution reaches the target by v.
   */
  lemma PctIsInverse(bounds: seq<real>, counts: seq<nat>, p: real, v: real, unit: real)
    requires WellFormed(bounds, counts) && Total(counts) > 0 && 0.0 < p <= 100.0 && unit > 0.0
    ensures Pct(bounds, counts, p, unit) <= v <==> Target(counts, p) <= Distribution(bounds, counts, v, unit)
  {
    assert |counts| == |bounds| + 1;
    hide Target, Cum, Selected, Upper, Lower, Along, Pct, WellFormed, Distribution, Times, Fraction;
    PctValue(bounds, counts, p, unit);
    InsideBucket(bounds, counts, p, unit);
    var i, t := Selected(counts, p), Target(counts, p);
    var lo, hi := Lower(bounds, i), Upper(bounds, i, unit);
    if v < lo {
      DistributionBefore(bounds, counts, i, v, unit);
    } else if v < hi {
      DistributionInside(bounds, counts, i, v, unit);
      InsideWidth(lo, hi, counts[i], t - Cum(counts, i) as real, v);
    } else {
      DistributionBehind(bounds, counts, i, v, unit);
    }
  }

  lemma LowerIsUpper(bounds: seq<real>, i: nat, unit: real)
    requires i <= |bounds|
    ensures i < |bounds| ==> Lower(bounds, i + 1) == Upper(bounds, i, unit)
  {
  }

  lemma FillInside(bounds: seq<real>, i: nat, c: nat, v: real, unit: real)
    requires i <= |bounds| && Lower(bounds, i) <= v < Upper(bounds, i, unit)
    ensures Times(c, Fill(bounds, i, v, unit)) == Times(c, Fraction(Lower(bounds, i), Upper(bounds, i, unit), v))
  {
    if v == Lower(bounds, i) {
      TimesRange(c, 0.0);
    }
  }

  lemma NothingAbove(bounds: seq<real>, counts: seq<nat>, k: nat, v: real, unit: real)
    requires WellFormed(bounds, counts) && unit > 0.0 && k <= |counts|
    requires k < |counts| ==> v < Lower(bounds, k)
    ensures Distribution(bounds, counts, v, unit) == Mass(bounds, counts, k, v, unit)
  {
    forall j | k <= j < |counts| ensures v < Upper(bounds, j, unit) && v <= Lower(bounds, j) {
      BucketOrder(bounds, counts, k, j, unit);
      BucketOrder(bounds, counts, j, j, unit);
    }
    MassEmpty(bounds, counts, k, |counts|, v, unit);
  }

  lemma EverythingBelow(bounds: seq<real>, counts: seq<nat>, k: nat, v: real, unit: real)
    requires WellFormed(bounds, counts) && unit > 0.0 && k < |counts| && Lower(bounds, k) <= v
    ensures Mass(bounds, counts, k, v, unit) == Cum(counts, k) as real
  {
    forall j | 0 <= j < k ensures Upper(bounds, j, unit) <= v {
      BucketOrder(bounds, counts, j, k, unit);
    }
    MassFull(bounds, counts, k, v, unit);
  }

  // ---- Order, scale and range of p ----

  /** A higher percentile is never the smaller one. */
  lemma PctMonotone(bounds: seq<real>, counts: seq<nat>, p: real, r: real, unit: real)
    requires WellFormed(bounds, counts) && Total(counts) > 0 && 0.0 < p <= r <= 100.0 && unit > 0.0
    ensures Pct(bounds, counts, p, unit) <= Pct(bounds, counts, r, unit)
  {
    var v := Pct(bounds, counts, r, unit);
    TargetOrder(counts, p, r);
    PctIsInverse(bounds, counts, r, v, unit);
    PctIsInverse(bounds, counts, p, v, unit);
  }

  lemma TargetOrder(counts: seq<nat>, p: real, r: real)
    requires Total(counts) > 0
    ensures p <= r <==> Target(counts, p) <= Target(counts, r)
    ensures Target(counts, 100.0) == Total(counts) as real
  {
    hide Cum;
    OrderTimes(p, r, Total(counts) as real);
  }

  /** Above 100 no bucket reaches the target, and the last bound is returned. */
  lemma PctAbove100(bounds: seq<real>, counts: seq<nat>, p: real, unit: real)
    requires |counts| == |bounds| + 1 && Total(counts) > 0 && p > 100.0
    ensures Pct(bounds, counts, p, unit) == if bounds != [] then bounds[|bounds| - 1] else 0.0
  {
    TargetOrder(counts, p, 100.0);
    hide Target;
    var b := Selected(counts, p);
    if b < |counts| {
      CumOrder(counts, b + 1, |counts|);
    }
  }

  lemma {:induction false} CumOrder(counts: seq<nat>, k: nat, m: nat)
    requires k <= m <= |counts|
    ensures Cum(counts, k) <= Cum(counts, m)
    decreases m
  {
    if k < m {
      CumOrder(counts, k, m - 1);
    }
  }

  /** Only one bucket can hold the target. */
  lemma SelectedIs(counts: seq<nat>, p: real, i: nat)
    requires i < |counts| && (Cum(counts, i) as real) < Target(counts, p) <= Cum(counts, i + 1) as real
    ensures Selected(counts, p) == i && counts[i] > 0 && Total(counts) > 0
  {
    CumOrder(counts, i + 1, |counts|);
    hide Target;
    var b := Selected(counts, p);
    if b < i {
      CumOrder(counts, b + 1, i);
    }
  }

  /** The percentile is found in the one bucket in which the target is reached. */
  lemma PctInBucket(bounds: seq<real>, counts: seq<nat>, p: real, unit: real, i: nat)
    requires |counts| == |bounds| + 1 && i < |counts|
    requires (Cum(counts, i) as real) < Target(counts, p) <= Cum(counts, i + 1) as real
    ensures counts[i] > 0
    ensures Pct(bounds, counts, p, unit)
            == Along(Lower(bounds, i), Upper(bounds, i, unit), Target(counts, p) - Cum(counts, i) as real,
                     counts[i] as real)
  {
    SelectedIs(counts, p, i);
    hide Cum, Target, Selected, Lower, Upper, Along;
  }

  lemma AlongPart(lo: real, hi: real, f: real, c: nat)
    requires c > 0
    ensures Along(lo, hi, Times(c, f), c as real) == lo + f * (hi - lo)
  {
    assert (c as real) * f / c as real == f;
  }

  /** With samples in the overflow bucket, the 100th percentile lies beyond the last bound by the last width. */
  lemma OverflowEnd(bounds: seq<real>, counts: seq<nat>, unit: real)
    requires |counts| == |bounds| + 1 && counts[|bounds|] > 0
    ensures var n := |bounds|;
            Pct(bounds, counts, 100.0, unit)
            == if n >= 2 then bounds[n - 1] + (bounds[n - 1] - bounds[n - 2])
               else if n == 1 then bounds[0] + bounds[0]
               else unit
  {
    var n := |bounds|;
    TargetOrder(counts, 100.0, 100.0);
    assert Total(counts) == Cum(counts, n) + counts[n];
    hide Target, Cum, Along, Pct, Selected;
    PctInBucket(bounds, counts, 100.0, unit, n);
    TimesEnds(counts[n]);
    AlongPart(Lower(bounds, n), Upper(bounds, n, unit), 1.0, counts[n]);
  }

  /** Samples in one bucket only are spread evenly over it: p percent of them fill p percent of its width. */
  lemma AllInOneBucket(bounds: seq<real>, counts: seq<nat>, p: real, unit: real, i: nat)
    requires |counts| == |bounds| + 1 && i < |bounds| && counts[i] == Total(counts) > 0 && 0.0 < p <= 100.0
    ensures var from := if i == 0 then 0.0 else bounds[i - 1];
            Pct(bounds, counts, p, unit) == from + p / 100.0 * (bounds[i] - from)
  {
    hide TargetOf, Cum, Total, Along, Times, Pct, Selected;
    OnlyBucket(counts, i);
    TargetRange(counts, p);
    Percent(counts[i], p);
    PctInBucket(bounds, counts, p, unit, i);
    AlongPart(Lower(bounds, i), Upper(bounds, i, unit), p / 100.0, counts[i]);
  }

  lemma OnlyBucket(counts: seq<nat>, i: nat)
    requires i < |counts| && counts[i] == Total(counts)
    ensures Cum(counts, i) == 0 && Cum(counts, i + 1) == Total(counts)
  {
    CumOrder(counts, i + 1, |counts|);
  }

  lemma Percent(c: nat, p: real)
    ensures TargetOf(c, p) == Times(c, p / 100.0)
  {
  }

  lemma {:induction false} TotalZeroIff(counts: seq<nat>, k: nat)
    requires k <= |counts|
    ensures Cum(counts, k) == 0 <==> forall j :: 0 <= j < k ==> counts[j] == 0
  {
    if k > 0 {
      TotalZeroIff(counts, k - 1);
    }
  }

  /** The percentile at 0 is 0, and without samples every percentile is. */
  lemma PctAtZero(bounds: seq<real>, counts: seq<nat>, unit: real)
    requires |counts| == |bounds| + 1
    ensures Pct(bounds, counts, 0.0, unit) == 0.0
    ensures (forall j :: 0 <= j < |counts| ==> counts[j] == 0) ==> forall p :: Pct(bounds, counts, p, unit) == 0.0
  {
    TotalZeroIff(counts, |counts|);
  }

  /** So monotonicity goes on past 100 exactly when the overflow bucket is empty or has no width. */
  lemma MonotonePast100(bounds: seq<real>, counts: seq<nat>, p: real, unit: real)
    requires WellFormed(bounds, counts) && Total(counts) > 0 && p > 100.0 && unit > 0.0
    ensures Pct(bounds, counts, 100.0, unit) <= Pct(bounds, counts, p, unit)
            <==> counts[|bounds|] == 0 || Lower(bounds, |bounds|) == Upper(bounds, |bounds|, unit)
  {
    var n, v := |bounds|, Lower(bounds, |bounds|);
    PctAbove100(bounds, counts, p, unit);
    PctIsInverse(bounds, counts, 100.0, v, unit);
    TargetOrder(counts, 100.0, 100.0);
    BucketOrder(bounds, counts, n, n, unit);
    EverythingBelow(bounds, counts, n, v, unit);
    MassStep(bounds, counts, n, v, unit);
    TimesRange(counts[n], Fill(bounds, n, v, unit));
  }

  /** A percentile above the 100th can be the smaller one: one sample, in the overflow bucket. */
  lemma DropPast100()
    ensures Pct([1.0], [0, 1], 100.0, 1.0) == 2.0 && Pct([1.0], [0, 1], 101.0, 1.0) == 1.0
  {
    var counts: seq<nat> := [0, 1];
    assert Cum(counts, 1) == 0 && Cum(counts, 2) == 1;
    PctAbove100([1.0], counts, 101.0, 1.0);
    TargetOrder(counts, 100.0, 100.0);
    assert Selected(counts, 100.0) == 1;
  }

  function Rescale(bounds: seq<real>, k: real): (r: seq<real>)
    ensures |r| == |bounds|
  {
    seq(|bounds|, i requires 0 <= i < |bounds| => bounds[i] * k)
  }

  lemma AlongScales(lo: real, hi: real, lo': real, hi': real, x: real, c: real, k: real)
    requires c > 0.0 && lo' == lo * k && hi' == hi * k
    ensures Along(lo', hi', x, c) == Along(lo, hi, x, c) * k
  {
    var f := x / c;
    assert f * (hi * k - lo * k) == f * (hi - lo) * k;
  }

  /** Changing the unit of the bounds changes the percentile by the same factor, for every p and every histogram. */
  lemma PctScales(bounds: seq<real>, counts: seq<nat>, p: real, unit: real, k: real)
    requires |counts| == |bounds| + 1
    ensures Pct(Rescale(bounds, k), counts, p, unit * k) == Pct(bounds, counts, p, unit) * k
  {
    hide Target, Selected, Along, Lower, Upper, Rescale, Cum;
    var i, r := Selected(counts, p), Rescale(bounds, k);
    if Total(counts) == 0 {
    } else if i < |counts| {
      LimitsScale(bounds, i, unit, k);
      if counts[i] > 0 {
        AlongScales(Lower(bounds, i), Upper(bounds, i, unit), Lower(r, i), Upper(r, i, unit * k),
                    Target(counts, p) - Cum(counts, i) as real, counts[i] as real, k);
      }
    } else if bounds != [] {
      assert r[|bounds| - 1] == bounds[|bounds| - 1] * k by { RescaleAt(bounds, k, |bounds| - 1); }
    }
  }

  lemma RescaleAt(bounds: seq<real>, k: real, i: nat)
    requires i < |bounds|
    ensures Rescale(bounds, k)[i] == bounds[i] * k
  {
  }

  lemma LimitsScale(bounds: seq<real>, i: nat, unit: real, k: real)
    requires i <= |bounds|
    ensures Lower(Rescale(bounds, k), i) == Lower(bounds, i) * k
    ensures Upper(Rescale(bounds, k), i, unit * k) == Upper(bounds, i, unit) * k
  {
    var n := |bounds|;
    if i == n && n >= 2 {
      assert (bounds[n - 1] + (bounds[n - 1] - bounds[n - 2])) * k
             == bounds[n - 1] * k + (bounds[n - 1] * k - bounds[n - 2] * k);
    }
  }

  // ---- The two implementations ----

  const MICROS := 1000000.0

  /** aggregate.py: bounds in microseconds, the total taken from the counts. */
  method PctFromHistogramPy(boundsUs: seq<real>, counts: seq<nat>, p: real) returns (r: real)
    requires |counts| == |boundsUs| + 1
    ensures r == Pct(boundsUs, counts, p, MICROS)
    ensures (forall j :: 0 <= j < |counts| ==> counts[j] == 0) ==> r == 0.0
  {
    PctAtZero(boundsUs, counts, MICROS);
    hide Upper, Along, TargetOf;
    var total := SumCounts(counts);
    if total == 0 {
      return 0.0;
    }
    var target := TargetOf(total, p);
    var cum, i := 0.0, 0;
    while i < |counts|
      invariant 0 <= i <= |counts| && cum == Cum(counts, i) as real
      invariant BucketFrom(counts, target, i) == Selected(counts, p)
    {
      cum := cum + counts[i] as real;
      if cum >= target {
        var lower := if i > 0 then boundsUs[i - 1] else 0.0;
        var upper := UpperLimit(boundsUs, i, 1000000.0);
        r := InBucket(lower, upper, target, cum - counts[i] as real, counts[i]);
        return;
      }
      i := i + 1;
    }
    r := if |boundsUs| > 0 then boundsUs[|boundsUs| - 1] else 0.0;
  }

  /** The interpolation step of both loops. */
  method InBucket(lower: real, upper: real, target: real, prevCum: real, count: nat) returns (r: real)
    ensures count > 0 ==> r == Along(lower, upper, target - prevCum, count as real)
    ensures count == 0 ==> r == lower
  {
    var frac := if count > 0 then (target - prevCum) / count as real else 0.0;
    r := lower + frac * (upper - lower);
  }

  method SumCounts(counts: seq<nat>) returns (total: nat)
    ensures total == Total(counts)
  {
    total := 0;
    var i := 0;
    while i < |counts|
      invariant 0 <= i <= |counts| && total == Cum(counts, i)
    {
      total := total + counts[i];
      i := i + 1;
    }
  }

  method UpperLimit(bounds: seq<real>, i: nat, unit: real) returns (upper: real)
    requires i <= |bounds|
    ensures upper == Upper(bounds, i, unit)
  {
    var n := |bounds|;
    if i < n {
      upper := bounds[i];
    } else if n >= 2 {
      upper := bounds[n - 1] + (bounds[n - 1] - bounds[n - 2]);
    } else if n == 1 {
      upper := bounds[0] * 2.0;
    } else {
      upper := unit;
    }
  }

  /** otel.go: bounds in seconds, the total kept by the data point, the result converted to microseconds. */
  method PctFromHistogramGo(bounds: seq<real>, counts: seq<nat>, count: nat, p: real) returns (r: real)
    requires |counts| == |bounds| + 1 && count == Total(counts)
    ensures r == Pct(bounds, counts, p, 1.0) * MICROS
    ensures r == Pct(Rescale(bounds, MICROS), counts, p, MICROS)
    ensures (forall j :: 0 <= j < |counts| ==> counts[j] == 0) ==> r == 0.0
  {
    PctAtZero(bounds, counts, 1.0);
    hide Upper, Along, TargetOf, Rescale;
    PctScales(bounds, counts, p, 1.0, MICROS);
    if count == 0 {
      return 0.0;
    }
    var target := TargetOf(count, p);
    var cum, i := 0.0, 0;
    while i < |counts|
      invariant 0 <= i <= |counts| && cum == Cum(counts, i) as real
      invariant BucketFrom(counts, target, i) == Selected(counts, p)
    {
      cum := cum + counts[i] as real;
      if cum >= target {
        var lower := 0.0;
        if i > 0 {
          lower := bounds[i - 1];
        }
        var upper := UpperLimit(bounds, i, 1.0);
        r := InBucket(lower, upper, target, cum - counts[i] as real, counts[i]);
        return r * 1000000.0;
      }
      i := i + 1;
    }
    if |bounds| > 0 {
      return bounds[|bounds| - 1] * 1000000.0;
    }
    return 0.0;
  }

  /** bucketDataFromDP: the bounds in microseconds and a copy of the counts. */
  method BucketDataFromDP(bounds: seq<real>, counts: seq<nat>) returns (boundsUs: seq<real>, copied: seq<nat>)
    ensures boundsUs == Rescale(bounds, MICROS) && copied == counts
    ensures WellFormed(bounds, counts) ==> WellFormed(boundsUs, copied)
  {
    boundsUs, copied := [], counts;
    var i := 0;
    while i < |bounds|
      invariant 0 <= i <= |bounds| && boundsUs == Rescale(bounds, MICROS)[..i]
    {
      boundsUs := boundsUs + [bounds[i] * 1000000.0];
      i := i + 1;
    }
  }
}
