/** Bands and stripes together: which shard publishes, and which shard subscribes to, each index. */
module Ownership {
  import opened Partition
  import opened Seqs
  import opened Subjects

  /** One publishing goroutine: the members of a band that this shard owns. */
  datatype Job<+R> = Job(name: string, rate: R, members: seq<int>)

  function Members<R>(band: Band<R>, shard: nat, shards: nat): (m: seq<int>)
    requires shard < shards && band.start <= band.end
    ensures |m| == StripeCount(band.end - band.start, shard, shards)
  {
    var mine := Stripe(band.end - band.start, shard, shards);
    seq(|mine|, j requires 0 <= j < |mine| => band.start + mine[j])
  }

  ghost predicate Ranges<R>(bands: seq<Band<R>>) {
    forall b <- bands :: b.start <= b.end
  }

  /** The jobs of one shard, in band order; bands it owns nothing of are skipped. */
  function Jobs<R>(bands: seq<Band<R>>, shard: nat, shards: nat): seq<Job<R>>
    requires shard < shards && Ranges(bands)
  {
    if bands == [] then []
    else
      var b := bands[|bands| - 1];
      var mine := Members(b, shard, shards);
      var front := Jobs(bands[..|bands| - 1], shard, shards);
      if mine == [] then front else front + [Job(b.name, b.rate, mine)]
  }

  /** MarketShard.Run and AccountShard.Run up to the launch of their goroutines. */
  method Launch<R>(bands: seq<Band<R>>, shard: nat, shards: nat) returns (jobs: seq<Job<R>>)
    requires shard < shards && Ranges(bands)
    ensures jobs == Jobs(bands, shard, shards)
  {
    jobs := [];
    var k := 0;
    while k < |bands|
      invariant 0 <= k <= |bands| && jobs == Jobs(bands[..k], shard, shards)
    {
      var b := bands[k];
      var mine := ShardIndices(b.end - b.start, shard, shards);
      assert bands[..k + 1][..k] == bands[..k];
      if |mine| > 0 {
        var members := Globalise(b, mine);
        assert members == Members(b, shard, shards);
        jobs := jobs + [Job(b.name, b.rate, members)];
      }
      k := k + 1;
    }
    assert bands[..k] == bands;
  }

  method Globalise<R>(band: Band<R>, mine: seq<nat>) returns (members: seq<int>)
    ensures |members| == |mine| && forall i :: 0 <= i < |mine| ==> members[i] == band.start + mine[i]
  {
    members := [];
    var i := 0;
    while i < |mine|
      invariant 0 <= i == |members| <= |mine| && forall j :: 0 <= j < i ==> members[j] == band.start + mine[j]
    {
      members := members + [band.start + mine[i]];
      i := i + 1;
    }
  }

  /** An index of a band that falls to a shard. */
  ghost predicate Mine<R>(b: Band<R>, g: int, shard: nat, shards: nat)
    requires shard < shards
  {
    b.start <= g < b.end && (g - b.start) % shards == shard
  }

  /** A job has its band's name and rate, and publishes exactly the shard's part of the band. */
  ghost predicate IsJobOf<R>(j: Job<R>, b: Band<R>, shard: nat, shards: nat)
    requires shard < shards
  {
    && j.name == b.name && j.rate == b.rate
    && forall g :: g in j.members <==> Mine(b, g, shard, shards)
  }

  lemma MembersAreMine<R>(b: Band<R>, shard: nat, shards: nat)
    requires shard < shards && b.start <= b.end
    ensures IsJobOf(Job(b.name, b.rate, Members(b, shard, shards)), b, shard, shards)
  {
    hide Members;
    forall g ensures g in Members(b, shard, shards) <==> Mine(b, g, shard, shards) {
      CountMembers(b, shard, shards, g);
      assert g in Members(b, shard, shards) <==> multiset(Members(b, shard, shards))[g] > 0;
    }
  }

  /** Each job is one band's. */
  lemma {:induction false} JobIsABands<R>(bands: seq<Band<R>>, shard: nat, shards: nat, j: Job<R>) returns (b: Band<R>)
    requires shard < shards && Ranges(bands) && j in Jobs(bands, shard, shards)
    ensures b in bands && IsJobOf(j, b, shard, shards)
  {
    hide Members, IsJobOf;
    b := bands[|bands| - 1];
    if j in Jobs(bands[..|bands| - 1], shard, shards) {
      b := JobIsABands(bands[..|bands| - 1], shard, shards, j);
    } else {
      MembersAreMine(b, shard, shards);
    }
  }

  /** And every band of which the shard owns anything has its job. */
  lemma {:induction false} BandHasAJob<R>(bands: seq<Band<R>>, shard: nat, shards: nat, b: Band<R>, g: int)
    returns (j: Job<R>)
    requires shard < shards && Ranges(bands) && b in bands && Mine(b, g, shard, shards)
    ensures j in Jobs(bands, shard, shards) && IsJobOf(j, b, shard, shards) && g in j.members
  {
    hide Members, Mine;
    if b in bands[..|bands| - 1] {
      j := BandHasAJob(bands[..|bands| - 1], shard, shards, b, g);
    } else {
      MembersAreMine(b, shard, shards);
      j := Job(b.name, b.rate, Members(b, shard, shards));
    }
  }

  /** So every index is published at the rate of the one band that holds it. */
  lemma PublishedAtBandRate<R>(bands: seq<Band<R>>, total: int, shard: nat, shards: nat, j: Job<R>, g: int, b: Band<R>)
    requires Tiles(bands, total) && shard < shards
    requires j in Jobs(bands, shard, shards) && g in j.members
    requires b in bands && b.start <= g < b.end
    ensures j.name == b.name && j.rate == b.rate && (g - b.start) % shards == shard
  {
    var c := JobIsABands(bands, shard, shards, j);
    assert Mine(c, g, shard, shards);
    hide Tiles, Jobs;
    SameBandHolds(bands, total, b, c, g);
  }

  lemma SameBandHolds<R>(bands: seq<Band<R>>, total: int, b: Band<R>, c: Band<R>, g: int)
    requires Tiles(bands, total) && b in bands && c in bands
    requires b.start <= g < b.end && c.start <= g < c.end
    ensures b == c
  {
    var m: nat :| m < |bands| && bands[m] == b;
    var n: nat :| n < |bands| && bands[n] == c;
    hide Tiles;
    if m < n {
      BandsApart(bands, total, m, n);
    } else if n < m {
      BandsApart(bands, total, n, m);
    }
  }

  lemma {:induction false} BandsApart<R>(bands: seq<Band<R>>, total: int, m: nat, n: nat)
    requires Tiles(bands, total) && m < n < |bands|
    ensures bands[m].end <= bands[n].start
  {
    if m + 1 < n {
      BandsApart(bands, total, m, n - 1);
    }
  }

  /** Everything a list of jobs publishes, with repetitions. */
  function Published<R>(jobs: seq<Job<R>>): seq<int> {
    if jobs == [] then [] else Published(jobs[..|jobs| - 1]) + jobs[|jobs| - 1].members
  }

  /** The shard that publishes index g: g's offset in its own band, modulo the number of shards. */
  function Owner<R>(bands: seq<Band<R>>, g: int, shards: nat): (s: nat)
    requires 0 < shards
    ensures s < shards
  {
    if bands == [] then 0
    else
      var b := bands[|bands| - 1];
      if b.start <= g then (g - b.start) % shards else Owner(bands[..|bands| - 1], g, shards)
  }

  lemma {:induction false} CountNoDup<T>(s: seq<T>, x: T)
    requires NoDup(s)
    ensures multiset(s)[x] == if x in s then 1 else 0
  {
    if s == [] {
    } else {
      var t := s[..|s| - 1];
      CountNoDup(t, x);
      assert s == t + [s[|s| - 1]];
      assert NoDup(t) && s[|s| - 1] !in t;
    }
  }

  lemma StripeNoDup(total: nat, shard: nat, shards: nat)
    requires shard < shards
    ensures NoDup(Stripe(total, shard, shards))
  {
    var s := Stripe(total, shard, shards);
    forall i, j | 0 <= i < j < |s| ensures s[i] != s[j] {
      ModOfStripe(shard, shards, i);
      ModOfStripe(shard, shards, j);
    }
  }

  lemma CountMembers<R>(band: Band<R>, shard: nat, shards: nat, g: int)
    requires shard < shards && band.start <= band.end
    ensures multiset(Members(band, shard, shards))[g]
            == if band.start <= g < band.end && (g - band.start) % shards == shard then 1 else 0
  {
    var n := band.end - band.start;
    var s, m := Stripe(n, shard, shards), Members(band, shard, shards);
    StripeNoDup(n, shard, shards);
    assert NoDup(m);
    CountNoDup(m, g);
    if band.start <= g {
      StripeMembers(n, shard, shards, g - band.start);
      if g - band.start in s {
        var j :| 0 <= j < |s| && s[j] == g - band.start;
        assert m[j] == g;
      }
    }
    if g in m {
      var j :| 0 <= j < |m| && m[j] == g;
      assert s[j] in s;
    }
  }

  /** The subjects one goroutine publishes to are all different. */
  lemma JobSubjectsDistinct<R>(band: Band<R>, shard: nat, shards: nat, i: nat, j: nat)
    requires shard < shards && 0 <= band.start <= band.end
    requires i < j < |Members(band, shard, shards)|
    ensures Subject(Market(Members(band, shard, shards)[i])) != Subject(Market(Members(band, shard, shards)[j]))
  {
    hide Subject;
    var m := Members(band, shard, shards);
    StripeNoDup(band.end - band.start, shard, shards);
    assert m[i] != m[j];
    if Subject(Market(m[i])) == Subject(Market(m[j])) {
      SubjectInjective(Market(m[i]), Market(m[j]));
    }
  }

  lemma TilesFront<R>(bands: seq<Band<R>>, end: int)
    requires Tiles(bands, end) && bands != []
    ensures Tiles(bands[..|bands| - 1], bands[|bands| - 1].start) && bands[|bands| - 1].start < end
  {
    var front := bands[..|bands| - 1];
    if front != [] {
      assert front[|front| - 1] == bands[|bands| - 2];
    }
  }

  /**
    Every index of [0, total) is published by exactly one shard, in exactly one job, exactly once;
    nothing else is published. This holds for any number of shards.
   */
  lemma {:induction false} SolePublisher<R>(bands: seq<Band<R>>, total: int, shard: nat, shards: nat, g: int)
    requires Tiles(bands, total) && shard < shards
    ensures multiset(Published(Jobs(bands, shard, shards)))[g]
            == if 0 <= g < total && shard == Owner(bands, g, shards) then 1 else 0
    decreases |bands|
  {
    if bands == [] {
    } else {
      var front, b := bands[..|bands| - 1], bands[|bands| - 1];
      TilesFront(bands, total);
      SolePublisher(front, b.start, shard, shards, g);
      CountMembers(b, shard, shards, g);
      var jobs, more := Jobs(front, shard, shards), Jobs(bands, shard, shards);
      var mine := Members(b, shard, shards);
      if mine == [] {
        assert more == jobs;
      } else {
        assert more[..|more| - 1] == jobs;
        assert Published(more) == Published(jobs) + mine;
      }
      StartNonNegative(bands, total);
    }
  }

  /** With any number of shards, the indices published by some shard are exactly those of [0, total). */
  lemma PublishedIff<R>(bands: seq<Band<R>>, total: int, shards: nat, g: int)
    requires Tiles(bands, total) && 0 < shards
    ensures (exists s: nat :: s < shards && g in Published(Jobs(bands, s, shards))) <==> 0 <= g < total
  {
    hide Jobs, Published, Owner;
    forall s: nat | s < shards
      ensures g in Published(Jobs(bands, s, shards)) <==> 0 <= g < total && s == Owner(bands, g, shards)
    {
      SolePublisher(bands, total, s, shards, g);
      assert g in Published(Jobs(bands, s, shards)) <==> multiset(Published(Jobs(bands, s, shards)))[g] > 0;
    }
    var owner := Owner(bands, g, shards);
    assert 0 <= g < total ==> g in Published(Jobs(bands, owner, shards));
  }

  lemma {:induction false} StartNonNegative<R>(bands: seq<Band<R>>, total: int)
    requires Tiles(bands, total) && bands != []
    ensures 0 <= bands[|bands| - 1].start
    decreases |bands|
  {
    TilesFront(bands, total);
    if |bands| > 1 {
      StartNonNegative(bands[..|bands| - 1], bands[|bands| - 1].start);
    }
  }

  /** Each user is served by exactly one user shard, once. */
  lemma SoleSubscriber(users: nat, shard: nat, shards: nat, uid: nat)
    requires shard < shards
    ensures multiset(Stripe(users, shard, shards))[uid] == if uid < users && uid % shards == shard then 1 else 0
  {
    StripeNoDup(users, shard, shards);
    CountNoDup(Stripe(users, shard, shards), uid);
    StripeMembers(users, shard, shards, uid);
  }

  /**
    Every algo user's private feeds have one publisher among the account shards and one subscriber
    among the user shards, even when the two roles run with different numbers of shards.
   */
  lemma AlgoFeedIsPaired<R>(tiers: seq<Band<R>>, algoUsers: nat, users: nat, uid: nat, pubShards: nat, subShards: nat)
    returns (pub: nat, sub: nat)
    requires Tiles(tiers, algoUsers) && uid < algoUsers <= users && 0 < pubShards && 0 < subShards
    ensures pub < pubShards && sub < subShards
    ensures forall s :: 0 <= s < pubShards ==>
              multiset(Published(Jobs(tiers, s, pubShards)))[uid] == if s == pub then 1 else 0
    ensures forall s :: 0 <= s < subShards ==> multiset(Stripe(users, s, subShards))[uid] == if s == sub then 1 else 0
  {
    pub, sub := Owner(tiers, uid, pubShards), uid % subShards;
    forall s | 0 <= s < pubShards
      ensures multiset(Published(Jobs(tiers, s, pubShards)))[uid] == if s == pub then 1 else 0
    {
      SolePublisher(tiers, algoUsers, s, pubShards, uid);
    }
    forall s | 0 <= s < subShards
      ensures multiset(Stripe(users, s, subShards))[uid] == if s == sub then 1 else 0
    {
      SoleSubscriber(users, s, subShards, uid);
    }
  }
}
