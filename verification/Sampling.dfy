/** Zipf-weighted sampling without replacement. */
module Sampling {
  import opened Seqs

  /** The sampler's weight of a global symbol index; in the source 1 / (index + 1)^alpha. */
  datatype ZipfSampler = ZipfSampler(weight: int -> real)

  ghost predicate Positive(z: ZipfSampler, pool: seq<nat>) {
    forall idx <- pool :: z.weight(idx) > 0.0
  }

  /** Sum of the weights of the first i pool entries. */
  function Weight(z: ZipfSampler, pool: seq<nat>, i: nat): real
    requires i <= |pool|
  {
    if i == 0 then 0.0 else Weight(z, pool, i - 1) + z.weight(pool[i - 1])
  }

  /** The cumulative weights up to and including each entry, over the total. */
  function Cumulative(z: ZipfSampler, pool: seq<nat>): (cum: seq<real>)
    requires pool == [] || Weight(z, pool, |pool|) > 0.0
    ensures |cum| == |pool|
  {
    seq(|pool|, i requires 0 <= i < |pool| => Weight(z, pool, i + 1) / Weight(z, pool, |pool|))
  }

  ghost predicate Ascending(cum: seq<real>) {
    forall i, j :: 0 <= i < j < |cum| ==> cum[i] <= cum[j]
  }

  /** The first position whose cumulative weight reaches x, or the length if there is none. */
  ghost predicate FirstAtLeast(cum: seq<real>, x: real, pos: int) {
    && 0 <= pos <= |cum|
    && (forall j :: 0 <= j < pos ==> cum[j] < x)
    && (pos < |cum| ==> x <= cum[pos])
  }

  lemma {:induction false} WeightIncreases(z: ZipfSampler, pool: seq<nat>, i: nat, j: nat)
    requires Positive(z, pool) && i < j <= |pool|
    ensures Weight(z, pool, i) < Weight(z, pool, j)
  {
    if i < j - 1 {
      WeightIncreases(z, pool, i, j - 1);
    }
    var idx := pool[j - 1];
    assert idx in pool;
    assert z.weight(idx) > 0.0;
    assert Weight(z, pool, j) == Weight(z, pool, j - 1) + z.weight(pool[j - 1]);
  }

  lemma DivideOrder(a: real, b: real, t: real)
    requires t > 0.0
    ensures a < b <==> a / t < b / t
    ensures a <= b <==> a / t <= b / t
  {
  }

  lemma CumulativeIncreases(z: ZipfSampler, pool: seq<nat>, i: nat, j: nat)
    requires Positive(z, pool) && i < j < |pool| && Weight(z, pool, |pool|) > 0.0
    ensures Cumulative(z, pool)[i] < Cumulative(z, pool)[j]
  {
    WeightIncreases(z, pool, i + 1, j + 1);
    DivideOrder(Weight(z, pool, i + 1), Weight(z, pool, j + 1), Weight(z, pool, |pool|));
  }

  /** The cumulative weights of a non-empty pool are positive, strictly increasing and end at one. */
  lemma CumulativeShape(z: ZipfSampler, pool: seq<nat>)
    requires pool != [] && Positive(z, pool)
    ensures Weight(z, pool, |pool|) > 0.0
    ensures forall i, j :: 0 <= i < j < |pool| ==> Cumulative(z, pool)[i] < Cumulative(z, pool)[j]
    ensures Cumulative(z, pool)[0] > 0.0 && Cumulative(z, pool)[|pool| - 1] == 1.0
  {
    WeightIncreases(z, pool, 0, |pool|);
    var t := Weight(z, pool, |pool|);
    forall i, j | 0 <= i < j < |pool| ensures Cumulative(z, pool)[i] < Cumulative(z, pool)[j] {
      CumulativeIncreases(z, pool, i, j);
    }
    WeightIncreases(z, pool, 0, 1);
    DivideOrder(0.0, Weight(z, pool, 1), t);
    assert t / t == 1.0;
  }

  /** The weight below position pos, as a share of the total. */
  function Below(z: ZipfSampler, pool: seq<nat>, pos: nat): real
    requires pos <= |pool| && Weight(z, pool, |pool|) > 0.0
  {
    Weight(z, pool, pos) / Weight(z, pool, |pool|)
  }

  /**
    A draw x from (0, 1) selects position pos if and only if it falls into pos's own interval, whose
    width is pos's share of the total weight. The search therefore never runs off the end.
   */
  lemma DrawSelects(z: ZipfSampler, pool: seq<nat>, x: real, pos: nat)
    requires pool != [] && Positive(z, pool) && 0.0 < x < 1.0
    ensures Weight(z, pool, |pool|) > 0.0
    ensures FirstAtLeast(Cumulative(z, pool), x, pos)
            <==> pos < |pool| && Below(z, pool, pos) < x <= Below(z, pool, pos + 1)
    ensures pos < |pool| ==>
            Below(z, pool, pos + 1) - Below(z, pool, pos) == z.weight(pool[pos]) / Weight(z, pool, |pool|)
  {
    CumulativeShape(z, pool);
    CumulativeIsBelow(z, pool);
    BelowStart(z, pool);
    if pos < |pool| {
      BelowStep(z, pool, pos);
    }
    hide Weight, Below, Cumulative, Positive;
    var cum := Cumulative(z, pool);
    assert pos > 0 && pos <= |pool| ==> cum[pos - 1] == Below(z, pool, pos);
  }

  lemma CumulativeIsBelow(z: ZipfSampler, pool: seq<nat>)
    requires Weight(z, pool, |pool|) > 0.0
    ensures forall i :: 0 <= i < |pool| ==> Cumulative(z, pool)[i] == Below(z, pool, i + 1)
  {
  }

  lemma BelowStart(z: ZipfSampler, pool: seq<nat>)
    requires Weight(z, pool, |pool|) > 0.0
    ensures Below(z, pool, 0) == 0.0
  {
  }

  lemma BelowStep(z: ZipfSampler, pool: seq<nat>, pos: nat)
    requires pos < |pool| && Weight(z, pool, |pool|) > 0.0
    ensures Below(z, pool, pos + 1) - Below(z, pool, pos) == z.weight(pool[pos]) / Weight(z, pool, |pool|)
  {
    var a, w, t := Weight(z, pool, pos), z.weight(pool[pos]), Weight(z, pool, |pool|);
    assert (a + w) / t == a / t + w / t;
  }

  /** With non-increasing weights a more popular entry never gets the smaller interval. */
  lemma PopularNeverLess(z: ZipfSampler, pool: seq<nat>, i: nat, j: nat)
    requires i < |pool| && j < |pool| && Positive(z, pool) && pool[i] <= pool[j]
    requires forall a, b :: 0 <= a <= b ==> z.weight(a) >= z.weight(b)
    ensures Weight(z, pool, |pool|) > 0.0
    ensures Below(z, pool, j + 1) - Below(z, pool, j) <= Below(z, pool, i + 1) - Below(z, pool, i)
  {
    DrawSelects(z, pool, 0.5, i);
    DrawSelects(z, pool, 0.5, j);
    DivideOrder(z.weight(pool[j]), z.weight(pool[i]), Weight(z, pool, |pool|));
  }

  // ---- What a list of draws selects ----

  function Search(cum: seq<real>, x: real, i: nat): (pos: nat)
    requires i <= |cum|
    ensures i <= pos <= |cum| && (forall j :: i <= j < pos ==> cum[j] < x) && (pos < |cum| ==> x <= cum[pos])
    decreases |cum| - i
  {
    if i == |cum| || x <= cum[i] then i else Search(cum, x, i + 1)
  }

  /** The pool entry a draw stands for; beyond the last position it is the last entry. */
  function Drawn(cum: seq<real>, pool: seq<nat>, x: real): nat
    requires |cum| == |pool| > 0
  {
    var pos := Search(cum, x, 0);
    if pos < |pool| then pool[pos] else pool[|pool| - 1]
  }

  function AddNew(s: seq<nat>, x: nat): seq<nat> {
    if x in s then s else s + [x]
  }

  /** The distinct entries a list of draws selects, in the order they are first drawn. */
  function Picks(cum: seq<real>, pool: seq<nat>, draws: seq<real>): (s: seq<nat>)
    requires |cum| == |pool| > 0
    ensures NoDup(s) && |s| <= |draws| && forall x <- s :: x in pool
  {
    if draws == [] then []
    else AddNew(Picks(cum, pool, draws[..|draws| - 1]), Drawn(cum, pool, draws[|draws| - 1]))
  }

  /** Fills up with the first entries of the pool that are not there yet, until there are k. */
  function Filled(pool: seq<nat>, k: nat, s: seq<nat>): (t: seq<nat>)
    ensures s <= t
  {
    if pool == [] then s
    else
      var t := Filled(pool[..|pool| - 1], k, s);
      if |t| < k then AddNew(t, pool[|pool| - 1]) else t
  }

  /** A draw from (0, 1) picks the entry in whose interval it falls, and never needs the clamp. */
  lemma DrawnInInterval(z: ZipfSampler, pool: seq<nat>, x: real)
    requires pool != [] && Positive(z, pool) && 0.0 < x < 1.0
    ensures Weight(z, pool, |pool|) > 0.0
    ensures exists pos :: 0 <= pos < |pool| && Below(z, pool, pos) < x <= Below(z, pool, pos + 1)
                          && Drawn(Cumulative(z, pool), pool, x) == pool[pos]
  {
    CumulativeShape(z, pool);
    DrawSelects(z, pool, x, Search(Cumulative(z, pool), x, 0));
  }

  lemma PicksSnoc(cum: seq<real>, pool: seq<nat>, draws: seq<real>, x: real)
    requires |cum| == |pool| > 0
    ensures Picks(cum, pool, draws + [x]) == AddNew(Picks(cum, pool, draws), Drawn(cum, pool, x))
    ensures Picks(cum, pool, []) == []
  {
    assert (draws + [x])[..|draws|] == draws;
  }

  lemma SearchIsFirst(cum: seq<real>, x: real, pos: nat)
    requires FirstAtLeast(cum, x, pos)
    ensures Search(cum, x, 0) == pos
  {
  }

  /** sort.SearchFloat64s: binary search for the first position whose value reaches x. */
  method SearchReals(cum: seq<real>, x: real) returns (pos: int)
    requires Ascending(cum)
    ensures FirstAtLeast(cum, x, pos)
  {
    pos := 0;
    var hi := |cum|;
    while pos < hi
      invariant 0 <= pos <= hi <= |cum|
      invariant forall j :: 0 <= j < pos ==> cum[j] < x
      invariant hi < |cum| ==> x <= cum[hi]
    {
      var mid := (pos + hi) / 2;
      if cum[mid] < x {
        pos := mid + 1;
      } else {
        hi := mid;
      }
    }
  }

  /** The two passes that build the normalised cumulative weights. */
  method BuildCumulative(z: ZipfSampler, pool: seq<nat>) returns (cum: seq<real>)
    requires pool != [] && Positive(z, pool)
    ensures Weight(z, pool, |pool|) > 0.0 && cum == Cumulative(z, pool)
  {
    CumulativeShape(z, pool);
    var n := |pool|;
    var total, i := 0.0, 0;
    while i < n
      invariant 0 <= i <= n && total == Weight(z, pool, i)
    {
      total := total + z.weight(pool[i]);
      i := i + 1;
    }
    var slots := new real[n];
    var c := 0.0;
    i := 0;
    while i < n
      invariant 0 <= i <= n && c == Weight(z, pool, i)
      invariant forall j :: 0 <= j < i ==> slots[j] == Weight(z, pool, j + 1) / total
    {
      c := c + z.weight(pool[i]);
      slots[i] := c / total;
      i := i + 1;
    }
    cum := slots[..];
  }

  /**
    What k entries of a pool are sampled by these draws: all of them if there are no more; otherwise what the draws
    select, filled up from the front, where drawing ends when enough is drawn or tried.
   */
  ghost predicate SampledFrom(z: ZipfSampler, pool: seq<nat>, k: int, result: seq<nat>, draws: seq<real>) {
    && (k <= 0 ==> result == [])
    && (0 < k && |pool| <= k ==> result == pool)
    && (0 < k < |pool| ==>
          && Weight(z, pool, |pool|) > 0.0 && (forall x <- draws :: 0.0 <= x < 1.0)
          && result == Filled(pool, k, Picks(Cumulative(z, pool), pool, draws))
          && (|Picks(Cumulative(z, pool), pool, draws)| == k || |draws| == 30 * k))
  }

  /**
    Draws up to k distinct entries: at most 30 * k weighted draws, then a sequential fill.
    Whatever the draws are, the result has exactly as many distinct entries as asked for
    and available; it starts with what the draws select, and drawing stops only when enough is drawn or tried.
   */
  method Sample(z: ZipfSampler, pool: seq<nat>, k: int) returns (result: seq<nat>, ghost draws: seq<real>)
    requires Positive(z, pool)
    ensures forall x <- result :: x in pool
    ensures SampledFrom(z, pool, k, result, draws)
    ensures k < |pool| ==> NoDup(result) && |result| == if k <= 0 then 0 else Min(k, |Elements(pool)|)
    ensures NoDup(pool) ==> NoDup(result) && |result| == if k <= 0 then 0 else Min(k, |pool|)
  {
    var n := |pool|;
    ElementsCard(pool);
    draws := [];
    if k <= 0 {
      return [], draws;
    }
    if k >= n {
      return pool, draws;
    }
    var cum := BuildCumulative(z, pool);
    CumulativeShape(z, pool);
    result, draws := DrawDistinct(cum, pool, k);
    result := FillUp(pool, k, result);
  }

  /** The bounded loop of weighted draws: an entry that was picked before is drawn again. */
  method DrawDistinct(cum: seq<real>, pool: seq<nat>, k: nat) returns (result: seq<nat>, ghost draws: seq<real>)
    requires |cum| == |pool| > 0 && Ascending(cum)
    ensures result == Picks(cum, pool, draws) && |result| <= k
    ensures |result| == k || |draws| == 30 * k
    ensures forall x <- draws :: 0.0 <= x < 1.0
  {
    hide Picks, Search;
    PicksSnoc(cum, pool, [], 0.0);
    var picked: set<nat> := {};
    result, draws := [], [];
    var maxTries := k * 30;
    while |result| < k && maxTries > 0
      invariant result == Picks(cum, pool, draws) && |result| <= k && picked == Elements(result)
      invariant 0 <= maxTries == 30 * k - |draws| && forall x <- draws :: 0.0 <= x < 1.0
      decreases maxTries
    {
      maxTries := maxTries - 1;
      var x: real :| 0.0 <= x < 1.0;
      var pos := SearchReals(cum, x);
      SearchIsFirst(cum, x, pos);
      if pos >= |pool| {
        pos := |pool| - 1;
      }
      var idx := pool[pos];
      assert idx == Drawn(cum, pool, x);
      PicksSnoc(cum, pool, draws, x);
      draws := draws + [x];
      if idx !in picked {
        picked := picked + {idx};
        result := result + [idx];
      }
    }
  }

  /** The sequential fill: takes the first entries not yet picked until k are there. */
  method FillUp(pool: seq<nat>, k: nat, picks: seq<nat>) returns (result: seq<nat>)
    requires NoDup(picks) && |picks| <= k && forall x <- picks :: x in pool
    ensures result == Filled(pool, k, picks) && NoDup(result) && |result| == Min(k, |Elements(pool)|)
    ensures forall x <- result :: x in pool
  {
    hide Filled, NoDup, Elements;
    FilledSnoc(pool, k, picks, 0);
    var picked := set x | x in picks;
    assert picked == Elements(picks) by { ElementsIs(picks); }
    result := picks;
    var i := 0;
    while i < |pool| && |result| < k
      invariant 0 <= i <= |pool| && result == Filled(pool[..i], k, picks)
      invariant NoDup(result) && |result| <= k && picked == Elements(result)
      invariant forall x <- result :: x in pool
      invariant forall j :: 0 <= j < i ==> pool[j] in result
    {
      var idx := pool[i];
      FilledSnoc(pool, k, picks, i);
      AddKeeps(result, idx);
      if idx !in picked {
        picked := picked + {idx};
        result := result + [idx];
      }
      assert idx in result;
      i := i + 1;
    }
    FilledStays(pool, k, picks, i);
    FilledSize(pool, k, result, i);
  }

  /** Distinct entries of the pool number k, or they are all there are. */
  lemma FilledSize(pool: seq<nat>, k: nat, result: seq<nat>, i: nat)
    requires NoDup(result) && |result| <= k && i <= |pool| && (i == |pool| || |result| == k)
    requires forall x <- result :: x in pool
    requires forall j :: 0 <= j < i ==> pool[j] in result
    ensures |result| == Min(k, |Elements(pool)|)
  {
    ElementsCard(result);
    SubsetCard(Elements(result), Elements(pool));
    if |result| < k {
      assert Elements(result) == Elements(pool);
    }
  }

  lemma ElementsIs(s: seq<nat>)
    ensures Elements(s) == set x | x in s
  {
  }

  lemma AddKeeps(s: seq<nat>, x: nat)
    ensures x in Elements(s) <==> x in s
    ensures Elements(AddNew(s, x)) == Elements(s) + {x} && (NoDup(s) ==> NoDup(AddNew(s, x)))
    ensures forall y :: y in AddNew(s, x) <==> y in s || y == x
  {
  }

  lemma FilledSnoc(pool: seq<nat>, k: nat, s: seq<nat>, i: nat)
    requires i <= |pool|
    ensures i < |pool| ==>
              var t := Filled(pool[..i], k, s);
              Filled(pool[..i + 1], k, s) == if |t| < k then AddNew(t, pool[i]) else t
    ensures Filled(pool[..0], k, s) == s
  {
    if i < |pool| {
      assert pool[..i + 1][..i] == pool[..i];
    }
  }

  lemma {:induction false} FilledStays(pool: seq<nat>, k: nat, s: seq<nat>, i: nat)
    requires i <= |pool| && (i == |pool| || |Filled(pool[..i], k, s)| >= k)
    ensures Filled(pool, k, s) == Filled(pool[..i], k, s)
  {
    if i == |pool| {
      assert pool[..i] == pool;
    } else {
      assert pool[..|pool| - 1][..i] == pool[..i];
      FilledStays(pool[..|pool| - 1], k, s, i);
    }
  }

  lemma {:induction false} SubsetCard<T>(a: set<T>, b: set<T>)
    requires a <= b
    ensures |a| <= |b|
  {
    if a == {} {
    } else {
      var x :| x in a;
      SubsetCard(a - {x}, b - {x});
    }
  }
}
