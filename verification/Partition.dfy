/** Who works on what: modulo stripes, screen ranges, and percentage bands over [0, total). */
module Partition {

  // ---- Modulo stripes ----

  function StripeCount(total: nat, shard: nat, shards: nat): nat
    requires shard < shards
  {
    if shard < total then (total - 1 - shard) / shards + 1 else 0
  }

  /** The indices of [0, total) that shard owns: shard, shard + shards, shard + 2 * shards, ... */
  function Stripe(total: nat, shard: nat, shards: nat): (s: seq<nat>)
    requires shard < shards
    ensures |s| == StripeCount(total, shard, shards)
  {
    seq(StripeCount(total, shard, shards), j requires 0 <= j => (MulOrder(shards, 0, j); shard + j * shards))
  }

  lemma QuotientAtMost(n: nat, d: nat, q: nat)
    requires 0 < d
    ensures q <= n / d <==> q * d <= n
  {
    var e := n / d;
    assert n == d * e + n % d;
    if q <= e {
      MulOrder(d, q, e);
    } else {
      MulOrder(d, e + 1, q);
    }
  }

  lemma MulOrder(d: nat, a: nat, b: nat)
    requires a <= b
    ensures a * d <= b * d && d * a <= d * b
  {
    assert (b - a) * d >= 0;
  }

  lemma StripeBound(total: nat, shard: nat, shards: nat, j: nat)
    requires shard < shards
    ensures j < StripeCount(total, shard, shards) <==> shard + j * shards < total
  {
    if shard < total {
      QuotientAtMost(total - 1 - shard, shards, j);
    } else {
      assert j * shards >= 0;
    }
  }

  lemma ModOfStripe(shard: nat, shards: nat, j: nat)
    requires shard < shards
    ensures (shard + j * shards) % shards == shard && (shard + j * shards) / shards == j
  {
    var i := shard + j * shards;
    QuotientAtMost(i, shards, j);
    QuotientAtMost(i, shards, j + 1);
    assert (j + 1) * shards == j * shards + shards;
    assert i / shards == j;
    assert i == shards * j + i % shards;
  }

  lemma StripeEntry(total: nat, shard: nat, shards: nat, j: nat)
    requires shard < shards && j < StripeCount(total, shard, shards)
    ensures var i := Stripe(total, shard, shards)[j]; i < total && i % shards == shard && i / shards == j
  {
    StripeBound(total, shard, shards, j);
    ModOfStripe(shard, shards, j);
  }

  lemma StripeHas(total: nat, shard: nat, shards: nat, i: nat)
    requires shard < shards && i < total && i % shards == shard
    ensures i / shards < StripeCount(total, shard, shards) && Stripe(total, shard, shards)[i / shards] == i
  {
    assert i == shard + i / shards * shards;
    StripeBound(total, shard, shards, i / shards);
    hide StripeCount;
  }

  /** A stripe holds exactly the indices below total that are congruent to the shard, each once. */
  lemma StripeMembers(total: nat, shard: nat, shards: nat, i: nat)
    requires shard < shards
    ensures i in Stripe(total, shard, shards) <==> i < total && i % shards == shard
    ensures i in Stripe(total, shard, shards) ==> Stripe(total, shard, shards)[i / shards] == i
  {
    hide Stripe, StripeCount;
    var s := Stripe(total, shard, shards);
    if i in s {
      var j :| 0 <= j < |s| && s[j] == i;
      StripeEntry(total, shard, shards, j);
    }
    if i < total && i % shards == shard {
      StripeHas(total, shard, shards, i);
    }
  }

  /** Entry j of a stripe, whether or not it is still below the total. */
  function Entry(shard: nat, shards: nat, j: int): int { shard + j * shards }

  lemma EntryOrder(shard: nat, shards: nat, i: nat, j: nat)
    requires 0 < shards
    ensures i < j ==> Entry(shard, shards, i) < Entry(shard, shards, j)
    ensures Entry(shard, shards, i + 1) == Entry(shard, shards, i) + shards
  {
    assert (i + 1) * shards == i * shards + shards;
    if i < j {
      MulOrder(shards, i + 1, j);
    }
  }

  lemma CountIs(total: nat, shard: nat, shards: nat, c: nat)
    requires shard < shards
    ensures c == StripeCount(total, shard, shards)
            <==> (c == 0 || Entry(shard, shards, c - 1) < total) && total <= Entry(shard, shards, c)
  {
    StripeBound(total, shard, shards, c);
    if c > 0 {
      StripeBound(total, shard, shards, c - 1);
    }
  }

  lemma NextEntryIff(total: nat, shard: nat, shards: nat)
    requires shard < shards
    ensures total % shards == shard <==> total == Entry(shard, shards, StripeCount(total, shard, shards))
  {
    var c, q := StripeCount(total, shard, shards), total / shards;
    CountIs(total, shard, shards, c);
    ModOfStripe(shard, shards, c);
    if total % shards == shard {
      assert total == Entry(shard, shards, q);
      StripeBound(total, shard, shards, q);
      EntryOrder(shard, shards, c, q);
    }
  }

  /** One more index adds to exactly one stripe: that of its remainder. */
  lemma StripeCountStep(total: nat, shard: nat, shards: nat)
    requires shard < shards
    ensures StripeCount(total + 1, shard, shards)
            == StripeCount(total, shard, shards) + if total % shards == shard then 1 else 0
  {
    var c := StripeCount(total, shard, shards);
    CountIs(total, shard, shards, c);
    NextEntryIff(total, shard, shards);
    EntryOrder(shard, shards, c, c);
    hide StripeCount, Entry;
    CountIs(total + 1, shard, shards, c);
    CountIs(total + 1, shard, shards, c + 1);
  }

  /** Stripe sizes differ by at most one, and earlier shards are never the smaller ones. */
  lemma StripeSizes(total: nat, a: nat, b: nat, shards: nat)
    requires a <= b < shards
    ensures StripeCount(total, b, shards) <= StripeCount(total, a, shards) <= StripeCount(total, b, shards) + 1
  {
    var m, n := StripeCount(total, a, shards), StripeCount(total, b, shards);
    StripeBound(total, a, shards, m);
    StripeBound(total, b, shards, n);
    if m < n {
      StripeBound(total, b, shards, m);
    }
    if n + 1 < m {
      assert (n + 1) * shards == n * shards + shards;
      StripeBound(total, a, shards, n + 1);
    }
  }

  method ShardIndices(total: nat, shard: nat, shards: nat) returns (out: seq<nat>)
    requires shard < shards
    ensures out == Stripe(total, shard, shards)
  {
    out := [];
    var i := shard;
    while i < total
      invariant i == shard + |out| * shards
      invariant |out| <= StripeCount(total, shard, shards)
      invariant out == Stripe(total, shard, shards)[..|out|]
      decreases total - i
    {
      StripeBound(total, shard, shards, |out|);
      assert (|out| + 1) * shards == |out| * shards + shards;
      out := out + [i];
      i := i + shards;
    }
    StripeBound(total, shard, shards, |out|);
  }

  lemma StripeStep(total: nat, shard: nat, shards: nat)
    requires shard < shards
    ensures Stripe(total + 1, shard, shards)
            == if total % shards == shard then Stripe(total, shard, shards) + [total] else Stripe(total, shard, shards)
  {
    StripeCountStep(total, shard, shards);
    NextEntryIff(total, shard, shards);
  }

  /**
    The market-sub-bin and market-sim-bin way to split symbols over connections, one index at a time: it deals
    out the same stripes that shards pick for themselves.
   */
  method Deal(total: nat, conns0: int) returns (parts: seq<seq<nat>>)
    ensures |parts| == if conns0 < 1 then (if total < 1 then 0 else 1) else if conns0 > total then total else conns0
    ensures forall c :: 0 <= c < |parts| ==> parts[c] == Stripe(total, c, |parts|)
  {
    var conns := conns0;
    if conns < 1 {
      conns := 1;
    }
    if conns > total {
      conns := total;
    }
    parts := seq(conns, _ => []);
    var i := 0;
    while i < total
      invariant 0 <= i <= total && |parts| == conns
      invariant forall c :: 0 <= c < conns ==> parts[c] == Stripe(i, c, conns)
    {
      var c := i % conns;
      forall d | 0 <= d < conns
        ensures Stripe(i + 1, d, conns) == if d == c then Stripe(i, d, conns) + [i] else Stripe(i, d, conns)
      {
        StripeStep(i, d, conns);
      }
      parts := parts[c := parts[c] + [i]];
      i := i + 1;
    }
  }

  // ---- Bands: contiguous ranges allotted by percentage ----

  /** One comma-separated entry of a spec. A blank entry is skipped but still counts as an entry. */
  datatype Part<+R> = Blank | Part(name: string, pct: real, rate: R)

  /** A half-open range of indices with its publishing rate: a tick class or an algo tier. */
  datatype Band<+R> = Band(name: string, start: int, end: int, rate: R)

  /** math.Round: to the nearest integer, halves away from zero. */
  function Round(x: real): (n: int)
    ensures n as real - 0.5 <= x <= n as real + 0.5
    ensures (0.0 <= x ==> x < n as real + 0.5) && (x <= 0.0 ==> n as real - 0.5 < x)
  {
    if x >= 0.0 then (x + 0.5).Floor else -((0.5 - x).Floor)
  }

  /** The number of indices pct percent of total stands for: rounded, but at least one. */
  function Share(pct: real, total: nat): (n: nat)
    ensures 1 <= n
  {
    var count := Round(pct / 100.0 * total as real);
    if count < 1 then 1 else count
  }

  function NonBlank<R>(parts: seq<Part<R>>): (r: seq<Part<R>>)
    ensures forall p <- r :: p.Part?
  {
    if parts == [] then []
    else NonBlank(parts[..|parts| - 1]) + if parts[|parts| - 1].Part? then [parts[|parts| - 1]] else []
  }

  /** The bands are non-empty and cover [0, end) without gap or overlap. */
  ghost predicate Tiles<R>(bands: seq<Band<R>>, end: int) {
    && (bands == [] ==> end == 0)
    && (bands != [] ==> bands[0].start == 0 && bands[|bands| - 1].end == end)
    && (forall i :: 0 <= i < |bands| ==> bands[i].start < bands[i].end)
    && (forall i :: 0 < i < |bands| ==> bands[i].start == bands[i - 1].end)
  }

  /**
    Band i takes its name and rate from the i-th of the given parts. All bands but the last have their exact
    share, and the last has no more than its share unless there is no further part.
   */
  ghost predicate Follows<R>(bands: seq<Band<R>>, parts: seq<Part<R>>, total: nat)
    requires forall p <- parts :: p.Part?
  {
    && |bands| <= |parts|
    && (forall i :: 0 <= i < |bands| ==> bands[i].name == parts[i].name && bands[i].rate == parts[i].rate)
    && (forall i :: 0 <= i < |bands| - 1 ==> bands[i].end - bands[i].start == Share(parts[i].pct, total))
    && (0 < |bands| < |parts| ==> NoMoreThanShare(bands[|bands| - 1], parts[|bands| - 1], total))
  }

  ghost predicate NoMoreThanShare<R>(b: Band<R>, p: Part<R>, total: nat)
    requires p.Part?
  {
    b.end - b.start <= Share(p.pct, total)
  }

  /** Bands are wholly determined by tiling [0, total) and following their parts. */
  lemma BandsUnique<R>(a: seq<Band<R>>, b: seq<Band<R>>, parts: seq<Part<R>>, total: nat)
    requires forall p <- parts :: p.Part?
    requires Tiles(a, total) && Follows(a, parts, total) && Tiles(b, total) && Follows(b, parts, total)
    ensures a == b
  {
    hide Share;
    if |a| <= |b| {
      BandsPrefix(a, b, parts, total);
    } else {
      BandsPrefix(b, a, parts, total);
    }
  }

  lemma BandsPrefix<R>(a: seq<Band<R>>, b: seq<Band<R>>, parts: seq<Part<R>>, total: nat)
    requires forall p <- parts :: p.Part?
    requires Tiles(a, total) && Follows(a, parts, total) && Tiles(b, total) && Follows(b, parts, total)
    requires |a| <= |b|
    ensures a == b
  {
    hide Share;
    SameStarts(a, b, parts, total, |a|);
    if |a| < |b| {
      EndsGrow(b, total, |a|);
    } else if |a| > 0 {
      SameBand(a[|a| - 1], b[|a| - 1]);
    }
  }

  lemma SameBand<R>(x: Band<R>, y: Band<R>)
    ensures x == y <==> x.name == y.name && x.start == y.start && x.end == y.end && x.rate == y.rate
  {
  }

  lemma {:induction false} EndsGrow<R>(b: seq<Band<R>>, total: nat, k: nat)
    requires Tiles(b, total) && k < |b|
    ensures b[k].start < b[k].end <= total && (k > 0 ==> b[k].start == b[k - 1].end)
    decreases |b| - k
  {
    if k < |b| - 1 {
      EndsGrow(b, total, k + 1);
    }
  }

  lemma {:induction false} SameStarts<R>(a: seq<Band<R>>, b: seq<Band<R>>, parts: seq<Part<R>>, total: nat, k: nat)
    requires forall p <- parts :: p.Part?
    requires Tiles(a, total) && Follows(a, parts, total) && Tiles(b, total) && Follows(b, parts, total)
    requires k <= |a| <= |b|
    ensures forall i :: 0 <= i < k ==> a[i].start == b[i].start && (i < |a| - 1 ==> a[i] == b[i])
  {
    hide Share;
    if k > 0 {
      SameStarts(a, b, parts, total, k - 1);
      if k > 1 {
        assert a[k - 2] == b[k - 2];
      }
      SameBand(a[k - 1], b[k - 1]);
    }
  }

  lemma NonBlankGrows<R>(parts: seq<Part<R>>, i: nat)
    requires i < |parts|
    ensures NonBlank(parts[..i + 1])
            == if parts[i].Part? then NonBlank(parts[..i]) + [parts[i]] else NonBlank(parts[..i])
  {
    assert parts[..i + 1][..i] == parts[..i];
  }

  lemma {:induction false} NonBlankPrefix<R>(parts: seq<Part<R>>, i: nat)
    requires i <= |parts|
    ensures NonBlank(parts[..i]) <= NonBlank(parts)
  {
    if i == |parts| {
      assert parts[..i] == parts;
    } else {
      var front := parts[..|parts| - 1];
      NonBlankPrefix(front, i);
      assert front[..i] == parts[..i];
    }
  }

  /** The state of the allotting loop after the non-blank parts in done. */
  ghost predicate Allotted<R>(bands: seq<Band<R>>, cursor: int, done: seq<Part<R>>, total: nat) {
    && Tiles(bands, cursor) && 0 <= cursor <= total && |bands| <= |done|
    && (forall p <- done :: p.Part?)
    && (cursor < total ==> |bands| == |done|)
    && (bands == [] <==> total == 0 || done == [])
    && (0 < |bands| < |done| ==> NoMoreThanShare(bands[|bands| - 1], done[|bands| - 1], total))
    && (forall i :: 0 <= i < |bands| ==> bands[i].name == done[i].name && bands[i].rate == done[i].rate)
    && (forall i :: 0 <= i < |bands| && (i < |bands| - 1 || cursor < total) ==>
          bands[i].end - bands[i].start == Share(done[i].pct, total))
  }

  lemma AllottedStep<R>(bands: seq<Band<R>>, cursor: int, done: seq<Part<R>>, total: nat, p: Part<R>, end: int)
    requires Allotted(bands, cursor, done, total) && cursor < total && p.Part?
    requires cursor < end <= total && (end < total ==> end == cursor + Share(p.pct, total))
    ensures Allotted(bands + [Band(p.name, cursor, end, p.rate)], end, done + [p], total)
    ensures |bands| == |done|
  {
    hide Share;
  }

  lemma AllottedPrefix<R>(bands: seq<Band<R>>, done: seq<Part<R>>, all: seq<Part<R>>, total: nat)
    requires Allotted(bands, total, done, total) && done <= all && forall p <- all :: p.Part?
    requires 0 < |bands| < |all| ==> NoMoreThanShare(bands[|bands| - 1], all[|bands| - 1], total)
    ensures Allotted(bands, total, all, total)
  {
    hide Share;
  }

  lemma AllottedStart<R>(parts: seq<Part<R>>, total: nat)
    ensures Allotted([], 0, NonBlank(parts[..0]), total)
  {
  }

  /** The loop shared by the parsers and the defaults: hands out shares until parts or indices run out. */
  method Allot<R>(parts: seq<Part<R>>, total: nat) returns (bands: seq<Band<R>>, cursor: int)
    ensures Allotted(bands, cursor, NonBlank(parts), total)
    ensures parts != [] && parts[|parts| - 1].Part? ==> cursor == total
  {
    hide Allotted, Share, NonBlank, Tiles;
    bands, cursor := [], 0;
    AllottedStart(parts, total);
    var i := 0;
    while i < |parts|
      invariant 0 <= i <= |parts| && 0 <= cursor <= total && (cursor < total || i == |parts| || total == 0)
      invariant Allotted(bands, cursor, NonBlank(parts[..i]), total) && (total == 0 ==> bands == [])
      invariant i == |parts| && i > 0 && parts[i - 1].Part? ==> cursor == total
    {
      NonBlankGrows(parts, i);
      ghost var done := NonBlank(parts[..i]);
      if parts[i].Part? {
        var count: int := Share(parts[i].pct, total);
        var end := cursor + count;
        if i == |parts| - 1 || end > total {
          end := total;
        }
        if cursor < end {
          AllottedStep(bands, cursor, done, total, parts[i], end);
          bands := bands + [Band(parts[i].name, cursor, end, parts[i].rate)];
          done := done + [parts[i]];
        }
        cursor := end;
        if cursor >= total {
          NonBlankPrefix(parts, i);
          NonBlankPrefix(parts, i + 1);
          assert i == |parts| - 1 ==> parts[..i + 1] == parts;
          AllottedPrefix(bands, done, NonBlank(parts), total);
          return;
        }
      }
      i := i + 1;
    }
    assert parts[..i] == parts;
  }

  /**
    ParseTickClasses and ParseAlgoTiers after splitting: allot, then give what is left to the last band.
    The bands tile [0, total) unless the spec has nothing but blank parts.
   */
  method ParseBands<R>(parts: seq<Part<R>>, total: nat) returns (bands: seq<Band<R>>)
    ensures Tiles(bands, total) <==> total == 0 || NonBlank(parts) != []
    ensures bands == [] <==> total == 0 || NonBlank(parts) == []
    ensures Follows(bands, NonBlank(parts), total)
  {
    var cursor;
    bands, cursor := Allot(parts, total);
    if cursor < total && |bands| > 0 {
      bands := bands[|bands| - 1 := bands[|bands| - 1].(end := total)];
    }
  }

  const DEFAULT_TICKS: seq<Part<real>> :=
    [Part("hot", 2.0, 30.0), Part("warm", 8.0, 8.0), Part("cool", 40.0, 1.0), Part("cold", 50.0, 0.1)]
  const REALISTIC_TICKS: seq<Part<real>> :=
    [Part("hot", 2.0, 3.0), Part("warm", 8.0, 1.0), Part("cool", 40.0, 0.2), Part("cold", 50.0, 0.05)]
  const DEFAULT_TIERS: seq<Part<(real, real)>> :=
    [Part("hft", 1.0, (2.0, 1.0)), Part("mm", 10.0, (0.5, 0.3)), Part("retail", 89.0, (0.05, 0.02))]

  /** The built-in tick classes and tiers use the same loop without the final patch, and need none. */
  method BuiltInBands<R>(parts: seq<Part<R>>, total: nat) returns (bands: seq<Band<R>>)
    requires parts != [] && forall p <- parts :: p.Part?
    ensures Tiles(bands, total) && Follows(bands, parts, total)
  {
    NothingBlank(parts);
    var cursor;
    bands, cursor := Allot(parts, total);
  }

  method DefaultTickClasses(n: nat) returns (classes: seq<Band<real>>)
    ensures Tiles(classes, n) && Follows(classes, DEFAULT_TICKS, n)
    ensures |classes| == 4 <==> 5 <= n
  {
    classes := BuiltInBands(DEFAULT_TICKS, n);
    AllFour(classes, DEFAULT_TICKS, n);
  }

  method RealisticTickClasses(n: nat) returns (classes: seq<Band<real>>)
    ensures Tiles(classes, n) && Follows(classes, REALISTIC_TICKS, n)
    ensures |classes| == 4 <==> 5 <= n
  {
    classes := BuiltInBands(REALISTIC_TICKS, n);
    AllFour(classes, REALISTIC_TICKS, n);
  }

  method DefaultAlgoTiers(n: nat) returns (tiers: seq<Band<(real, real)>>)
    ensures Tiles(tiers, n) && Follows(tiers, DEFAULT_TIERS, n)
    ensures |tiers| == 3 <==> 3 <= n
  {
    tiers := BuiltInBands(DEFAULT_TIERS, n);
    AllThree(tiers, n);
  }

  lemma {:induction false} NothingBlank<R>(parts: seq<Part<R>>)
    requires forall p <- parts :: p.Part?
    ensures NonBlank(parts) == parts
  {
    if parts != [] {
      NothingBlank(parts[..|parts| - 1]);
    }
  }

  /** How much is handed out by a number of parts that all have their exact share. */
  function Shares<R>(parts: seq<Part<R>>, total: nat, k: nat): nat
    requires k <= |parts| && forall p <- parts :: p.Part?
  {
    if k == 0 then 0 else Shares(parts, total, k - 1) + Share(parts[k - 1].pct, total)
  }

  /** There is a band for every part exactly when the shares of all but the last leave something over. */
  lemma AllBandsIff<R>(bands: seq<Band<R>>, parts: seq<Part<R>>, total: nat)
    requires parts != [] && forall p <- parts :: p.Part?
    requires Tiles(bands, total) && Follows(bands, parts, total)
    ensures |bands| == |parts| <==> Shares(parts, total, |parts| - 1) < total
  {
    hide Share;
    var k := |bands|;
    if k > 0 {
      StartIsShares(bands, parts, total, k - 1);
      SharesGrow(parts, total, k, |parts| - 1);
    }
  }

  lemma {:induction false} StartIsShares<R>(bands: seq<Band<R>>, parts: seq<Part<R>>, total: nat, i: nat)
    requires forall p <- parts :: p.Part?
    requires Tiles(bands, total) && Follows(bands, parts, total) && i < |bands|
    ensures bands[i].start == Shares(parts, total, i)
  {
    hide Share;
    if i > 0 {
      StartIsShares(bands, parts, total, i - 1);
    }
  }

  lemma {:induction false} SharesGrow<R>(parts: seq<Part<R>>, total: nat, i: nat, j: nat)
    requires forall p <- parts :: p.Part?
    ensures i <= j <= |parts| ==> Shares(parts, total, i) <= Shares(parts, total, j)
  {
    hide Share;
    if i < j <= |parts| {
      SharesGrow(parts, total, i, j - 1);
    }
  }

  /** A width is the nearest whole number to pct percent of total, halves going up, but at least one. */
  ghost predicate Nearest(width: int, pct: real, total: nat) {
    var x := pct / 100.0 * total as real;
    if x < 0.5 then width == 1 else width as real - 0.5 <= x < width as real + 0.5
  }

  lemma ShareIsNearest(pct: real, total: nat)
    ensures Nearest(Share(pct, total), pct, total)
  {
  }

  /**
    Every band but the last is as wide as its percentage says, to the nearest index; the last one is no wider than
    that, unless it is that of the last part, which takes all that is left.
   */
  lemma BandWidths<R>(bands: seq<Band<R>>, parts: seq<Part<R>>, total: nat, i: nat)
    requires forall p <- parts :: p.Part?
    requires Follows(bands, parts, total) && i < |bands|
    ensures var width := bands[i].end - bands[i].start;
            && (i < |bands| - 1 ==> Nearest(width, parts[i].pct, total))
            && (i < |parts| - 1 ==> exists w :: width <= w && Nearest(w, parts[i].pct, total))
  {
    hide Share;
    ShareIsNearest(parts[i].pct, total);
  }

  /** For example: the built-in classes of 500 symbols, and the built-in tiers of 20 algo users. */
  lemma TicksByExample(ticks: seq<Band<real>>)
    requires Tiles(ticks, 500) && Follows(ticks, DEFAULT_TICKS, 500)
    ensures ticks == [Band("hot", 0, 10, 30.0), Band("warm", 10, 50, 8.0),
                      Band("cool", 50, 250, 1.0), Band("cold", 250, 500, 0.1)]
  {
    hide Share;
    SharesByExample();
    BandsUnique(ticks, [Band("hot", 0, 10, 30.0), Band("warm", 10, 50, 8.0),
                        Band("cool", 50, 250, 1.0), Band("cold", 250, 500, 0.1)], DEFAULT_TICKS, 500);
  }

  lemma RealisticTicksByExample(ticks: seq<Band<real>>)
    requires Tiles(ticks, 500) && Follows(ticks, REALISTIC_TICKS, 500)
    ensures ticks == [Band("hot", 0, 10, 3.0), Band("warm", 10, 50, 1.0),
                      Band("cool", 50, 250, 0.2), Band("cold", 250, 500, 0.05)]
  {
    hide Share;
    SharesByExample();
    BandsUnique(ticks, [Band("hot", 0, 10, 3.0), Band("warm", 10, 50, 1.0),
                        Band("cool", 50, 250, 0.2), Band("cold", 250, 500, 0.05)], REALISTIC_TICKS, 500);
  }

  lemma TiersByExample(tiers: seq<Band<(real, real)>>)
    requires Tiles(tiers, 20) && Follows(tiers, DEFAULT_TIERS, 20)
    ensures tiers == [Band("hft", 0, 1, (2.0, 1.0)), Band("mm", 1, 3, (0.5, 0.3)),
                      Band("retail", 3, 20, (0.05, 0.02))]
  {
    hide Share;
    SharesByExample();
    BandsUnique(tiers, [Band("hft", 0, 1, (2.0, 1.0)), Band("mm", 1, 3, (0.5, 0.3)),
                        Band("retail", 3, 20, (0.05, 0.02))], DEFAULT_TIERS, 20);
  }

  lemma SharesByExample()
    ensures Share(2.0, 500) == 10 && Share(8.0, 500) == 40 && Share(40.0, 500) == 200
    ensures Share(1.0, 20) == 1 && Share(10.0, 20) == 2
  {
  }

  lemma FirstShares(n: nat)
    ensures Share(2.0, n) + Share(8.0, n) + Share(40.0, n) < n <==> 5 <= n
    ensures Share(1.0, n) + Share(10.0, n) < n <==> 3 <= n
  {
  }

  /** Every class of the built-in lists is there exactly when there are at least five symbols. */
  lemma AllFour(bands: seq<Band<real>>, parts: seq<Part<real>>, n: nat)
    requires parts == DEFAULT_TICKS || parts == REALISTIC_TICKS
    requires Tiles(bands, n) && Follows(bands, parts, n)
    ensures |bands| == 4 <==> 5 <= n
  {
    AllBandsIff(bands, parts, n);
    FirstShares(n);
    hide Share;
    assert Shares(parts, n, 1) == Shares(parts, n, 0) + Share(parts[0].pct, n) == Share(2.0, n);
    assert Shares(parts, n, 2) == Shares(parts, n, 1) + Share(8.0, n);
  }

  lemma AllThree(bands: seq<Band<(real, real)>>, n: nat)
    requires Tiles(bands, n) && Follows(bands, DEFAULT_TIERS, n)
    ensures |bands| == 3 <==> 3 <= n
  {
    AllBandsIff(bands, DEFAULT_TIERS, n);
    FirstShares(n);
    hide Share;
    assert Shares(DEFAULT_TIERS, n, 1) == Shares(DEFAULT_TIERS, n, 0) + Share(1.0, n) == Share(1.0, n);
  }

  // ---- Screens ----

  /** A range of symbol indices shown on one page. */
  datatype Screen = Screen(name: string, start: nat, end: nat)

  datatype ScreenPart = BlankScreen | ScreenPart(name: string, start: nat, endInclusive: int)

  ghost predicate ScreensOK(screens: seq<Screen>, total: nat) {
    && screens != []
    && forall s <- screens :: s.start <= s.end <= total && (0 < total ==> s.start < s.end)
  }

  /** The exclusive end of a parsed screen: its inclusive end plus one, clamped to total. */
  function ClampEnd(p: ScreenPart, total: nat): int
    requires p.ScreenPart?
  {
    if p.endInclusive + 1 > total then total else p.endInclusive + 1
  }

  /** The screens a spec names: those that are not empty once clamped, in order. */
  function Kept(parts: seq<ScreenPart>, total: nat): (screens: seq<Screen>)
    ensures forall s <- screens :: s.start < s.end <= total
  {
    if parts == [] then []
    else
      var front, p := Kept(parts[..|parts| - 1], total), parts[|parts| - 1];
      if p.ScreenPart? && p.start < ClampEnd(p, total)
      then front + [Screen(p.name, p.start, ClampEnd(p, total))]
      else front
  }

  ghost predicate Shown(screens: seq<Screen>, i: int) {
    exists s <- screens :: s.start <= i < s.end
  }

  /** An index is on a kept screen exactly when it exists and lies within some part, whose end is inclusive. */
  lemma {:induction false} KeptShows(parts: seq<ScreenPart>, total: nat, i: nat)
    ensures Shown(Kept(parts, total), i)
            <==> i < total && exists p <- parts :: p.ScreenPart? && p.start <= i <= p.endInclusive
  {
    if parts != [] {
      var front, p := parts[..|parts| - 1], parts[|parts| - 1];
      KeptShows(front, total, i);
      assert forall q :: q in parts <==> q in front || q == p;
      var screens, more := Kept(front, total), Kept(parts, total);
      if p.ScreenPart? && p.start < ClampEnd(p, total) {
        assert forall s :: s in more <==> s in screens || s == Screen(p.name, p.start, ClampEnd(p, total));
      }
    }
  }

  function AtMost(cap: nat, n: nat): nat { if cap > n then n else cap }

  /** The built-in screens: the first 50 symbols, the first 100, and those from 100 to 500, as far as there are any. */
  function BuiltInScreens(n: nat): (screens: seq<Screen>)
    ensures ScreensOK(screens, n)
  {
    if n == 0 then [Screen("all", 0, 0)]
    else
      [Screen("home", 0, AtMost(50, n))]
      + (if n > 50 then [Screen("trending", 0, AtMost(100, n))] else [])
      + if n > 100 then [Screen("midcap", 100, AtMost(500, n))] else []
  }

  method ParseScreens(parts: seq<ScreenPart>, total: nat) returns (screens: seq<Screen>)
    ensures ScreensOK(screens, total)
    ensures screens == if Kept(parts, total) != [] then Kept(parts, total) else BuiltInScreens(total)
  {
    screens := [];
    var i := 0;
    while i < |parts|
      invariant 0 <= i <= |parts| && screens == Kept(parts[..i], total)
    {
      assert parts[..i + 1][..i] == parts[..i];
      if parts[i].ScreenPart? {
        var end := parts[i].endInclusive + 1;
        if end > total {
          end := total;
        }
        if parts[i].start < end {
          screens := screens + [Screen(parts[i].name, parts[i].start, end)];
        }
      }
      i := i + 1;
    }
    assert parts[..i] == parts;
    if screens == [] {
      screens := DefaultScreens(total);
    }
  }

  method DefaultScreens(n: nat) returns (screens: seq<Screen>)
    ensures screens == BuiltInScreens(n)
  {
    var cap50 := if 50 > n then n else 50;
    var cap100 := if 100 > n then n else 100;
    var cap500 := if 500 > n then n else 500;
    screens := [];
    if cap50 > 0 {
      screens := screens + [Screen("home", 0, cap50)];
    }
    if cap100 > cap50 {
      screens := screens + [Screen("trending", 0, cap100)];
    }
    if cap500 > cap100 {
      screens := screens + [Screen("midcap", cap100, cap500)];
    }
    if |screens| == 0 {
      screens := screens + [Screen("all", 0, n)];
    }
  }

  /** Which symbols each built-in screen shows, and when there is such a screen. */
  lemma BuiltInScreensShow(n: nat, i: nat)
    requires 0 < n
    ensures forall s <- BuiltInScreens(n) :: s.name in ["home", "trending", "midcap"]
    ensures forall s <- BuiltInScreens(n) :: s.start <= i < s.end
              <==> i < n && if s.name == "home" then i < 50
                            else if s.name == "trending" then i < 100
                            else 100 <= i < 500
    ensures (exists s <- BuiltInScreens(n) :: s.name == "home")
    ensures (exists s <- BuiltInScreens(n) :: s.name == "trending") <==> 50 < n
    ensures (exists s <- BuiltInScreens(n) :: s.name == "midcap") <==> 100 < n
  {
    var screens := BuiltInScreens(n);
    assert screens[0].name == "home";
    if 50 < n {
      assert screens[1].name == "trending";
    }
    if 100 < n {
      assert screens[2].name == "midcap";
    }
  }

  /** Between them the built-in screens show exactly the first 500 symbols, so far as there are any. */
  lemma BuiltInScreensCover(n: nat, i: nat)
    ensures (exists s :: s in BuiltInScreens(n) && s.start <= i < s.end) <==> i < AtMost(500, n)
  {
    var screens := BuiltInScreens(n);
    if i < AtMost(500, n) {
      assert || screens[0].start <= i < screens[0].end
             || screens[1].start <= i < screens[1].end
             || screens[2].start <= i < screens[2].end;
    }
  }

  /** The symbol indices of a screen, clamped to total. */
  method Indices(s: Screen, total: nat) returns (out: seq<nat>)
    ensures |out| == if s.end < total then (if s.start < s.end then s.end - s.start else 0)
                     else if s.start < total then total - s.start else 0
    ensures forall j :: 0 <= j < |out| ==> out[j] == s.start + j
  {
    var end := s.end;
    if end > total {
      end := total;
    }
    out := [];
    var i := s.start;
    while i < end
      invariant s.start <= i && |out| == i - s.start && (i <= end || i == s.start)
      invariant forall j :: 0 <= j < |out| ==> out[j] == s.start + j
    {
      out := out + [i];
      i := i + 1;
    }
  }
}
