/** The initial choice of visible symbols: half from a screen, the rest Zipf-weighted. */
module Visibility {
  import opened Partition
  import opened Sampling
  import opened Seqs
  import opened Shuffling

  datatype Config = Config(symbols: nat, algoUsers: nat, visibleK: nat, zipf: ZipfSampler,
                           screens: seq<Screen>, scrollCount: int)

  ghost predicate ConfigOK(cfg: Config) {
    && ScreensOK(cfg.screens, cfg.symbols)
    && forall idx: nat :: idx < cfg.symbols ==> cfg.zipf.weight(idx) > 0.0
  }

  /** How many symbols a user sees, and how many of them its screen provides. */
  function VisibleCount(cfg: Config): nat { Min(cfg.visibleK, cfg.symbols) }

  function ScreenCount(cfg: Config, screen: Screen): (n: nat)
    requires screen.start <= screen.end
    ensures n <= screen.end - screen.start && 2 * n <= VisibleCount(cfg)
    ensures n == screen.end - screen.start || VisibleCount(cfg) <= 2 * n + 1
  {
    Min(VisibleCount(cfg) / 2, screen.end - screen.start)
  }

  // ---- The initial split ----

  /** The symbols of [0, n) that are not among the given ones, in ascending order. */
  function Outside(taken: seq<nat>, n: nat): seq<nat> {
    if n == 0 then [] else Outside(taken, n - 1) + if n - 1 in taken then [] else [n - 1]
  }

  /** They make up all of [0, n) together with the given ones. */
  lemma {:induction false} OutsideIs(taken: seq<nat>, n: nat)
    ensures forall x: nat :: x in Outside(taken, n) <==> x < n && x !in taken
    ensures forall i, j :: 0 <= i < j < |Outside(taken, n)| ==> Outside(taken, n)[i] < Outside(taken, n)[j]
  {
    if n > 0 {
      var front := Outside(taken, n - 1);
      OutsideIs(taken, n - 1);
      forall i | 0 <= i < |front| ensures front[i] < n - 1 {
        assert front[i] in front;
      }
    }
  }

  lemma OutsideSplits(taken: seq<nat>, n: nat)
    requires NoDup(taken) && forall x <- taken :: x < n
    ensures Splits(taken, Outside(taken, n), n)
    ensures forall x <- Outside(taken, n) :: x < n && x !in taken
    ensures forall i, j :: 0 <= i < j < |Outside(taken, n)| ==> Outside(taken, n)[i] < Outside(taken, n)[j]
  {
    OutsideIs(taken, n);
    hide Outside;
  }

  /** The loop that collects them, with the given ones as a set. */
  method Complement(taken: set<nat>, ghost members: seq<nat>, n: nat) returns (out: seq<nat>)
    requires forall x :: x in taken <==> x in members
    ensures out == Outside(members, n)
  {
    out := [];
    var i := 0;
    while i < n
      invariant 0 <= i <= n && out == Outside(members, i)
    {
      if i !in taken {
        out := out + [i];
      }
      i := i + 1;
    }
  }

  function OnScreen(screen: Screen): (s: seq<nat>)
    requires screen.start <= screen.end
    ensures |s| == screen.end - screen.start && NoDup(s)
  {
    seq(screen.end - screen.start, i requires 0 <= i => screen.start + i)
  }

  /** The first half of the slots: a uniform choice from the user's screen. */
  method PickFromScreen(cfg: Config, screen: Screen) returns (picks: seq<nat>, ghost draws: seq<nat>)
    requires screen.start <= screen.end <= cfg.symbols
    ensures Draws(draws, screen.end - screen.start)
    ensures picks == Shuffled(OnScreen(screen), draws)[..ScreenCount(cfg, screen)]
    ensures NoDup(picks) && |picks| == ScreenCount(cfg, screen)
    ensures forall x <- picks :: screen.start <= x < screen.end
  {
    hide Shuffled, Draws, NoDup;
    var k := cfg.visibleK;
    if k > cfg.symbols {
      k := cfg.symbols;
    }
    var screenIdxs := Indices(screen, cfg.symbols);
    var kScreen := k / 2;
    if kScreen > |screenIdxs| {
      kScreen := |screenIdxs|;
    }
    assert screenIdxs == OnScreen(screen);
    assert forall x <- screenIdxs :: screen.start <= x < screen.end;
    screenIdxs, draws := Shuffle(screenIdxs);
    picks := screenIdxs[..kScreen];
    NoDupPrefix(screenIdxs, kScreen);
  }

  lemma NoDupPrefix(s: seq<nat>, k: nat)
    requires NoDup(s) && k <= |s|
    ensures NoDup(s[..k]) && forall x <- s[..k] :: x in s
  {
  }

  lemma NoDupConcat(a: seq<nat>, b: seq<nat>)
    requires NoDup(a) && NoDup(b) && forall x <- b :: x !in a
    ensures NoDup(a + b)
  {
    forall i, j | 0 <= i < j < |a + b| ensures (a + b)[i] != (a + b)[j] {
      if i < |a| <= j {
        assert b[j - |a|] in b && a[i] in a;
      }
    }
  }

  /** Appends the picks that are not there yet, keeping the set of everything appended. */
  method AppendNew(vis0: seq<nat>, picks: seq<nat>) returns (vis: seq<nat>, visSet: set<nat>)
    requires NoDup(vis0) && NoDup(picks) && forall x <- picks :: x !in vis0
    ensures vis == vis0 + picks && NoDup(vis)
    ensures forall x :: x in visSet <==> x in vis
  {
    vis, visSet := [], {};
    var i := 0;
    while i < |vis0|
      invariant 0 <= i <= |vis0| && vis == vis0[..i]
      invariant forall x :: x in visSet <==> x in vis
    {
      vis, visSet := vis + [vis0[i]], visSet + {vis0[i]};
      i := i + 1;
    }
    i := 0;
    while i < |picks|
      invariant 0 <= i <= |picks| && vis == vis0 + picks[..i]
      invariant forall x :: x in visSet <==> x in vis
    {
      assert picks[i] in picks && picks[i] !in picks[..i];
      if picks[i] !in visSet {
        vis, visSet := vis + [picks[i]], visSet + {picks[i]};
      }
      i := i + 1;
    }
    NoDupConcat(vis0, picks);
  }

  /**
    What the draws made have chosen: the first slots are the beginning of the shuffled screen, the others are
    sampled from the symbols that are left, and what is not visible is the rest in ascending order.
   */
  ghost predicate Chosen(cfg: Config, screen: Screen, visible: seq<nat>, notVisible: seq<nat>,
                         shuffle: seq<nat>, draws: seq<real>)
    requires screen.start <= screen.end
  {
    var n := ScreenCount(cfg, screen);
    && Draws(shuffle, screen.end - screen.start) && n <= |visible|
    && visible[..n] == Shuffled(OnScreen(screen), shuffle)[..n]
    && SampledFrom(cfg.zipf, Outside(visible[..n], cfg.symbols), VisibleCount(cfg) - n, visible[n..], draws)
    && notVisible == Outside(visible, cfg.symbols)
  }

  /**
    Whatever the random draws are, the visible and not-visible symbols are duplicate-free, disjoint
    and together all of [0, symbols); the visible ones fill every slot, and the screen's share
    of the slots lies on the screen.
   */
  method BuildVisible(cfg: Config, uid: nat)
    returns (visible: seq<nat>, notVisible: seq<nat>, ghost shuffle: seq<nat>, ghost draws: seq<real>)
    requires ConfigOK(cfg)
    ensures Splits(visible, notVisible, cfg.symbols) && |visible| == VisibleCount(cfg)
    ensures forall i, j :: 0 <= i < j < |notVisible| ==> notVisible[i] < notVisible[j]
    ensures var screen := cfg.screens[uid % |cfg.screens|];
            && screen.start <= screen.end && Chosen(cfg, screen, visible, notVisible, shuffle, draws)
            && forall i :: 0 <= i < ScreenCount(cfg, screen) ==> screen.start <= visible[i] < screen.end
  {
    hide Shuffled, Outside, SampledFrom, Draws, Chosen, ScreenCount, NoDup, Splits;
    var k := cfg.visibleK;
    if k > cfg.symbols {
      k := cfg.symbols;
    }
    var screen := cfg.screens[uid % |cfg.screens|];
    assert screen in cfg.screens;
    var picks;
    picks, shuffle := PickFromScreen(cfg, screen);
    var screenSet := set x | x in picks;
    var pool := Complement(screenSet, picks, cfg.symbols);
    OutsideSplits(picks, cfg.symbols);
    SplitLengths(picks, pool, cfg.symbols);
    NoDupSides(picks, pool, cfg.symbols);
    var zipfPicked;
    zipfPicked, draws := Sample(cfg.zipf, pool, k - |picks|);
    var visSet;
    visible, visSet := AppendNew(picks, zipfPicked);
    notVisible := Complement(visSet, visible, cfg.symbols);
    OutsideSplits(visible, cfg.symbols);
    TheseAreChosen(cfg, screen, picks, zipfPicked, shuffle, draws);
  }

  lemma NoDupSides(a: seq<nat>, b: seq<nat>, n: nat)
    requires Splits(a, b, n)
    ensures NoDup(a) && NoDup(b)
  {
  }

  lemma TheseAreChosen(cfg: Config, screen: Screen, picks: seq<nat>, others: seq<nat>,
                       shuffle: seq<nat>, draws: seq<real>)
    requires screen.start <= screen.end && |picks| == ScreenCount(cfg, screen)
    requires Draws(shuffle, screen.end - screen.start) && picks == Shuffled(OnScreen(screen), shuffle)[..|picks|]
    requires SampledFrom(cfg.zipf, Outside(picks, cfg.symbols), VisibleCount(cfg) - |picks|, others, draws)
    requires forall x <- picks :: screen.start <= x < screen.end
    ensures Chosen(cfg, screen, picks + others, Outside(picks + others, cfg.symbols), shuffle, draws)
    ensures forall i :: 0 <= i < |picks| ==> screen.start <= (picks + others)[i] < screen.end
  {
    hide Shuffled, Outside, SampledFrom, Draws, ScreenCount;
    var visible := picks + others;
    assert visible[..|picks|] == picks && visible[|picks|..] == others;
    assert forall i :: 0 <= i < |picks| ==> visible[i] == picks[i] && picks[i] in picks;
  }
}
