/**
  Batched counters under concurrency. Each publishing goroutine keeps a local count and adds it to its
  shard's shared counter in batches; the add and the reset are separate steps that others may fall between.
 */
module Counters {

  /** When a goroutine counts an attempt, and how large its batches are. */
  datatype Rule = Rule(batch: nat, countsFailures: bool)

  /** Market: successful publishes, by 512. Orders and trades: attempts of the kind, failed or not, by 256. */
  const MARKET_RULE := Rule(512, false)
  const ACCOUNT_RULE := Rule(256, true)

  datatype Phase = Looping | AddDue | ResetDue | Done

  /** A goroutine's local count and where it stands. */
  datatype Worker = Worker(local: nat, phase: Phase)

  datatype Shard = Shard(shared: nat, workers: seq<Worker>)

  /** A publish attempt (of this counter's kind or not, succeeding or not), or a goroutine's next own step. */
  datatype Action = Attempt(mine: bool, ok: bool) | Add | Reset | Stop

  function Counts(rule: Rule, a: Action): nat
    requires a.Attempt?
  {
    if a.mine && (a.ok || rule.countsFailures) then 1 else 0
  }

  /** Only after a successful publish is the local count compared with the batch size. */
  function AfterAttempt(rule: Rule, w: Worker, a: Action): Worker
    requires a.Attempt?
  {
    var local := w.local + Counts(rule, a);
    Worker(local, if a.ok && local == rule.batch then AddDue else Looping)
  }

  predicate Enabled(w: Worker, a: Action) {
    match a
    case Attempt(_, _) => w.phase == Looping
    case Add => w.phase == AddDue
    case Reset => w.phase == ResetDue
    case Stop => w.phase == Looping
  }

  function Act(rule: Rule, s: Shard, i: nat, a: Action): Shard
    requires i < |s.workers| && Enabled(s.workers[i], a)
  {
    var w := s.workers[i];
    match a
    case Attempt(_, _) => s.(workers := s.workers[i := AfterAttempt(rule, w, a)])
    case Add => Shard(s.shared + rule.batch, s.workers[i := w.(phase := ResetDue)])
    case Reset => s.(workers := s.workers[i := w.(local := 0, phase := Looping)])
    case Stop => Shard(s.shared + w.local, s.workers[i := w.(phase := Done)])
  }

  /** Any schedule of any number of goroutines; steps that are not enabled are passed over. */
  function Exec(rule: Rule, n: nat, schedule: seq<(nat, Action)>): (s: Shard)
    ensures |s.workers| == n
  {
    if schedule == [] then Shard(0, seq(n, _ => Worker(0, Looping)))
    else
      var s := Exec(rule, n, schedule[..|schedule| - 1]);
      var (i, a) := schedule[|schedule| - 1];
      if i < n && Enabled(s.workers[i], a) then Act(rule, s, i, a) else s
  }

  /** What a goroutine has counted but not yet added to the shared counter. */
  function Pending(w: Worker): nat {
    if w.phase == Looping || w.phase == AddDue then w.local else 0
  }

  function TotalPending(ws: seq<Worker>): nat {
    if ws == [] then 0 else TotalPending(ws[..|ws| - 1]) + Pending(ws[|ws| - 1])
  }

  /** The number of attempts in a schedule that were made and are to be counted. */
  function CountedAttempts(rule: Rule, n: nat, schedule: seq<(nat, Action)>): nat {
    if schedule == [] then 0
    else
      var front, s := schedule[..|schedule| - 1], Exec(rule, n, schedule[..|schedule| - 1]);
      var (i, a) := schedule[|schedule| - 1];
      CountedAttempts(rule, n, front) + if i < n && Enabled(s.workers[i], a) && a.Attempt? then Counts(rule, a) else 0
  }

  lemma {:induction false} TotalAfter(ws: seq<Worker>, i: nat, w: Worker)
    requires i < |ws|
    ensures TotalPending(ws[i := w]) == TotalPending(ws) - Pending(ws[i]) + Pending(w)
  {
    var front := ws[..|ws| - 1];
    if i < |front| {
      TotalAfter(front, i, w);
      assert ws[i := w][..|ws| - 1] == front[i := w];
    } else {
      assert ws[i := w][..|ws| - 1] == front;
    }
  }

  lemma {:induction false} TotalAtStart(n: nat)
    ensures TotalPending(seq(n, _ => Worker(0, Looping))) == 0
  {
    if n > 0 {
      TotalAtStart(n - 1);
      assert seq(n, _ => Worker(0, Looping))[..n - 1] == seq(n - 1, _ => Worker(0, Looping));
    }
  }

  /** A goroutine that owes the shared counter a batch holds exactly one batch. */
  ghost predicate BatchExact(rule: Rule, w: Worker) {
    w.phase == AddDue || w.phase == ResetDue ==> w.local == rule.batch
  }

  lemma {:induction false} BatchesExact(rule: Rule, n: nat, schedule: seq<(nat, Action)>)
    ensures forall w <- Exec(rule, n, schedule).workers :: BatchExact(rule, w)
  {
    if schedule != [] {
      var front := schedule[..|schedule| - 1];
      var (i, a) := schedule[|schedule| - 1];
      BatchesExact(rule, n, front);
      var s := Exec(rule, n, front);
      if i < n && Enabled(s.workers[i], a) {
        assert s.workers[i] in s.workers;
        assert BatchExact(rule, Act(rule, s, i, a).workers[i]);
        assert forall w <- Exec(rule, n, schedule).workers :: w in s.workers || w == Act(rule, s, i, a).workers[i];
      }
    }
  }

  /**
    Under every interleaving, the shared counter plus what the goroutines still hold is exactly the number
    of attempts counted: nothing is lost or added twice, whatever fails and whenever anyone is preempted.
   */
  lemma {:induction false} Conserved(rule: Rule, n: nat, schedule: seq<(nat, Action)>)
    ensures var s := Exec(rule, n, schedule);
            s.shared + TotalPending(s.workers) == CountedAttempts(rule, n, schedule)
  {
    if schedule == [] {
      TotalAtStart(n);
    } else {
      var front := schedule[..|schedule| - 1];
      var (i, a) := schedule[|schedule| - 1];
      Conserved(rule, n, front);
      BatchesExact(rule, n, front);
      var s, t := Exec(rule, n, front), Exec(rule, n, schedule);
      if i < n && Enabled(s.workers[i], a) {
        assert BatchExact(rule, s.workers[i]);
        TotalAfter(s.workers, i, t.workers[i]);
      }
    }
  }

  /** Once every goroutine has stopped, the shared counter is exact. */
  lemma ExactWhenDone(rule: Rule, n: nat, schedule: seq<(nat, Action)>)
    requires forall w <- Exec(rule, n, schedule).workers :: w.phase == Done
    ensures Exec(rule, n, schedule).shared == CountedAttempts(rule, n, schedule)
  {
    Conserved(rule, n, schedule);
    NothingPending(Exec(rule, n, schedule).workers);
  }

  lemma {:induction false} NothingPending(ws: seq<Worker>)
    requires forall w <- ws :: w.phase == Done
    ensures TotalPending(ws) == 0
  {
    if ws != [] {
      assert ws[|ws| - 1] in ws;
      NothingPending(ws[..|ws| - 1]);
    }
  }

  /** A goroutine that counts only successes tests what it counts, so it never holds a full batch while looping. */
  lemma {:induction false} MarketStaysBelow(n: nat, schedule: seq<(nat, Action)>)
    ensures forall w <- Exec(MARKET_RULE, n, schedule).workers :: w.phase == Looping ==> w.local < 512
  {
    if schedule != [] {
      MarketStaysBelow(n, schedule[..|schedule| - 1]);
      BatchesExact(MARKET_RULE, n, schedule[..|schedule| - 1]);
    }
  }

  // ---- The account counters can overshoot their batch size ----

  /** One goroutine's local count between attempts. */
  function LocalAfter(rule: Rule, attempts: seq<Action>): nat
    requires forall a <- attempts :: a.Attempt?
  {
    if attempts == [] then 0
    else
      var a := attempts[|attempts| - 1];
      var local := LocalAfter(rule, attempts[..|attempts| - 1]) + Counts(rule, a);
      if a.ok && local == rule.batch then 0 else local
  }

  /** The attempts that one goroutine of a schedule has made. */
  function AttemptsOf(rule: Rule, n: nat, schedule: seq<(nat, Action)>, i: nat): (attempts: seq<Action>)
    ensures forall a <- attempts :: a.Attempt?
  {
    if schedule == [] then []
    else
      var front, s := schedule[..|schedule| - 1], Exec(rule, n, schedule[..|schedule| - 1]);
      var (j, a) := schedule[|schedule| - 1];
      var before := AttemptsOf(rule, n, front, i);
      if j == i < n && Enabled(s.workers[i], a) && a.Attempt? then before + [a] else before
  }

  /**
    Under every schedule each goroutine's local count is that of its own loop: what it has counted since a success
    last filled its batch. While a batch is being added, the loop counts as having started anew.
   */
  lemma {:induction false} LocalIsLoops(rule: Rule, n: nat, schedule: seq<(nat, Action)>, i: nat)
    requires i < n
    ensures var w := Exec(rule, n, schedule).workers[i];
            LocalAfter(rule, AttemptsOf(rule, n, schedule, i))
            == if w.phase == AddDue || w.phase == ResetDue then 0 else w.local
  {
    if schedule == [] {
    } else {
      var front := schedule[..|schedule| - 1];
      var (j, a) := schedule[|schedule| - 1];
      LocalIsLoops(rule, n, front, i);
      hide LocalAfter;
      if a.Attempt? {
        LocalGrows(rule, AttemptsOf(rule, n, front, i), a);
      }
    }
  }

  lemma LocalGrows(rule: Rule, attempts: seq<Action>, a: Action)
    requires a.Attempt? && forall b <- attempts :: b.Attempt?
    ensures var local := LocalAfter(rule, attempts) + Counts(rule, a);
            LocalAfter(rule, attempts + [a]) == if a.ok && local == rule.batch then 0 else local
    ensures LocalAfter(rule, []) == 0
  {
    assert (attempts + [a])[..|attempts|] == attempts;
  }

  ghost predicate Attempts(attempts: seq<Action>) {
    forall a <- attempts :: a.Attempt?
  }

  /** Attempt i failed and filled the batch, and nothing up to k is of the kind or successful. */
  ghost predicate StuckSince(attempts: seq<Action>, i: int, k: int)
    requires Attempts(attempts) && 0 <= i < k <= |attempts|
  {
    && LocalAfter(ACCOUNT_RULE, attempts[..i]) == 255 && attempts[i].mine && !attempts[i].ok
    && forall j :: i < j < k ==> !attempts[j].mine && !attempts[j].ok
  }

  lemma LocalSnoc(attempts: seq<Action>)
    requires Attempts(attempts) && attempts != []
    ensures var front, a := attempts[..|attempts| - 1], attempts[|attempts| - 1];
            var local := LocalAfter(ACCOUNT_RULE, front) + if a.mine then 1 else 0;
            LocalAfter(ACCOUNT_RULE, attempts) == if a.ok && local == 256 then 0 else local
  {
  }

  /** The local count stands at the batch size exactly when a failed publish filled it and nothing has followed. */
  lemma {:induction false} FullIff(attempts: seq<Action>)
    requires Attempts(attempts)
    ensures LocalAfter(ACCOUNT_RULE, attempts) == 256
            <==> exists i :: 0 <= i < |attempts| && StuckSince(attempts, i, |attempts|)
  {
    if attempts != [] {
      var n := |attempts| - 1;
      var front := attempts[..n];
      FullIff(front);
      LocalSnoc(attempts);
      hide LocalAfter;
      assert forall i :: 0 <= i <= n ==> front[..i] == attempts[..i];
      if LocalAfter(ACCOUNT_RULE, front) == 256 {
        var i :| 0 <= i < n && StuckSince(front, i, n);
        assert StuckSince(attempts, i, n + 1) <==> !attempts[n].mine && !attempts[n].ok;
      }
      assert StuckSince(attempts, n, n + 1)
        <==> LocalAfter(ACCOUNT_RULE, front) == 255 && attempts[n].mine && !attempts[n].ok;
      if i :| 0 <= i < n && StuckSince(attempts, i, |attempts|) {
        assert StuckSince(front, i, n);
      }
    }
  }

  /**
    An account goroutine's local count passes 256 exactly when a publish fails on the attempt that fills the
    batch, and the next attempt that is of the kind comes before any publish has succeeded again; from then
    on the loop never flushes it.
   */
  lemma {:induction false} OvershootIff(attempts: seq<Action>)
    requires Attempts(attempts)
    ensures LocalAfter(ACCOUNT_RULE, attempts) > 256
            <==> exists i, k :: 0 <= i < k < |attempts| && StuckSince(attempts, i, k) && attempts[k].mine
  {
    if attempts != [] {
      var n := |attempts| - 1;
      var front := attempts[..n];
      OvershootIff(front);
      FullIff(front);
      LocalSnoc(attempts);
      hide LocalAfter;
      forall i, k | 0 <= i < k <= n ensures StuckSince(attempts, i, k) <==> StuckSince(front, i, k) {
        assert front[..i] == attempts[..i];
      }
    }
  }

  lemma {:induction false} OrdersPileUp(k: nat)
    requires k <= 255
    ensures LocalAfter(ACCOUNT_RULE, seq(k, _ => Attempt(true, true))) == k
  {
    if k > 0 {
      OrdersPileUp(k - 1);
      assert seq(k, _ => Attempt(true, true))[..k - 1] == seq(k - 1, _ => Attempt(true, true));
    }
  }

  /** 255 orders, one that fails, and one more: the loop now holds 257. The conservation law is not affected. */
  lemma OvershootHappens()
    ensures LocalAfter(ACCOUNT_RULE, seq(255, _ => Attempt(true, true)) + [Attempt(true, false), Attempt(true, true)])
            == 257
  {
    var a, b, c := seq(255, _ => Attempt(true, true)), Attempt(true, false), Attempt(true, true);
    OrdersPileUp(255);
    assert (a + [b])[..255] == a && (a + [b, c])[..256] == a + [b];
    assert LocalAfter(ACCOUNT_RULE, a + [b]) == 256;
  }
}
