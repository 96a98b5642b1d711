/** The Fisher-Yates shuffle: what it makes of its draws, and that it makes every order of exactly one list of draws. */
module Shuffling {
  import opened Seqs
  import opened Sums

  function Swapped(s: seq<nat>, i: nat, j: nat): (t: seq<nat>)
    requires i < |s| && j < |s|
    ensures |t| == |s|
  {
    s[i := s[j]][j := s[i]]
  }

  lemma SwapFacts(s: seq<nat>, i: nat, j: nat)
    requires i < |s| && j < |s|
    ensures multiset(Swapped(s, i, j)) == multiset(s) && (NoDup(s) ==> NoDup(Swapped(s, i, j)))
  {
  }

  /** One draw for each position, of a position not behind it. */
  ghost predicate Draws(draws: seq<nat>, n: nat) {
    |draws| == n && forall i :: 0 <= i < n ==> draws[i] <= i
  }

  /** From the last position to the first, each is exchanged with the one drawn for it. */
  ghost function Shuffled(s: seq<nat>, draws: seq<nat>): (t: seq<nat>)
    requires Draws(draws, |s|)
    ensures |t| == |s|
    decreases |s|
  {
    if s == [] then []
    else
      var n := |s| - 1;
      var u := Swapped(s, n, draws[n]);
      Shuffled(u[..n], draws[..n]) + [u[n]]
  }

  lemma SplitLast(s: seq<nat>)
    requires s != []
    ensures var n := |s| - 1;
            && s == s[..n] + [s[n]] && multiset(s) == multiset(s[..n]) + multiset{s[n]}
            && (NoDup(s) <==> NoDup(s[..n]) && s[n] !in s[..n])
  {
    var n := |s| - 1;
    assert s == s[..n] + [s[n]];
    if NoDup(s[..n]) && s[n] !in s[..n] {
      forall i, j | 0 <= i < j < |s| ensures s[i] != s[j] {
        assert s[..n][i] == s[i];
        assert j < n ==> s[..n][j] == s[j];
      }
    }
  }

  /** One step of the shuffle: the last position is settled, and the others are shuffled by the other draws. */
  lemma ShuffledLast(s: seq<nat>, draws: seq<nat>)
    requires Draws(draws, |s|) && s != []
    ensures var n := |s| - 1;
            var u, t := Swapped(s, n, draws[n]), Shuffled(s, draws);
            && Draws(draws[..n], |u[..n]|)
            && t[..n] == Shuffled(u[..n], draws[..n]) && t[n] == u[n] == s[draws[n]]
            && multiset(u) == multiset(s) && (NoDup(s) ==> NoDup(u[..n]))
  {
    hide NoDup;
    var n := |s| - 1;
    SwapFacts(s, n, draws[n]);
    SplitLast(Swapped(s, n, draws[n]));
  }

  lemma {:induction false} ShuffledPermutes(s: seq<nat>, draws: seq<nat>)
    requires Draws(draws, |s|)
    ensures multiset(Shuffled(s, draws)) == multiset(s)
    decreases |s|
  {
    if s != [] {
      var n := |s| - 1;
      var u, t := Swapped(s, n, draws[n]), Shuffled(s, draws);
      ShuffledLast(s, draws);
      hide Shuffled, Swapped;
      ShuffledPermutes(u[..n], draws[..n]);
      SplitLast(u);
      SplitLast(t);
    }
  }

  lemma SameMultiset(s: seq<nat>, t: seq<nat>)
    requires multiset(s) == multiset(t)
    ensures |s| == |t| && (forall x <- t :: x in s) && (NoDup(s) ==> NoDup(t))
  {
    assert |s| == |multiset(s)| && |t| == |multiset(t)|;
    forall x <- t ensures x in s {
      assert x in multiset(t);
    }
    if NoDup(s) {
      forall i, j | 0 <= i < j < |t| ensures t[i] != t[j] {
        if t[i] == t[j] {
          Twice(t, i, j);
          NoDupCount(s, t[i]);
        }
      }
    }
  }

  lemma Twice(t: seq<nat>, i: nat, j: nat)
    requires i < j < |t| && t[i] == t[j]
    ensures multiset(t)[t[i]] >= 2
  {
    assert t == t[..i] + [t[i]] + t[i + 1..j] + [t[j]] + t[j + 1..];
  }

  lemma {:induction false} NoDupCount(s: seq<nat>, x: nat)
    requires NoDup(s)
    ensures multiset(s)[x] <= 1
  {
    if s != [] {
      SplitLast(s);
      NoDupCount(s[..|s| - 1], x);
      assert s[|s| - 1] !in multiset(s[..|s| - 1]);
    }
  }

  /** Every order of the list comes out for some draws. */
  lemma {:induction false} EveryOrder(s: seq<nat>, t: seq<nat>) returns (draws: seq<nat>)
    requires multiset(s) == multiset(t)
    ensures Draws(draws, |s|) && Shuffled(s, draws) == t
    decreases |s|
  {
    SameMultiset(s, t);
    if s == [] {
      draws := [];
    } else {
      var n := |s| - 1;
      assert t[n] in t;
      var d: nat :| d < |s| && s[d] == t[n];
      var more := EveryOrderOfRest(s, t, d);
      draws := more + [d];
      assert draws[..n] == more;
      SplitLast(t);
    }
  }

  lemma EveryOrderOfRest(s: seq<nat>, t: seq<nat>, d: nat) returns (more: seq<nat>)
    requires multiset(s) == multiset(t) && d < |s| == |t| && s[d] == t[|s| - 1]
    ensures var n := |s| - 1;
            Draws(more, n) && Shuffled(Swapped(s, n, d)[..n], more) == t[..n]
    decreases |s|, 0
  {
    RestOfMultiset(s, t, d);
    var n := |s| - 1;
    more := EveryOrder(Swapped(s, n, d)[..n], t[..n]);
  }

  lemma RestOfMultiset(s: seq<nat>, t: seq<nat>, d: nat)
    requires multiset(s) == multiset(t) && d < |s| == |t| && s[d] == t[|s| - 1]
    ensures multiset(Swapped(s, |s| - 1, d)[..|s| - 1]) == multiset(t[..|s| - 1])
  {
    var n := |s| - 1;
    var u := Swapped(s, n, d);
    assert u[n] == t[n];
    hide Swapped;
    SwapFacts(s, n, d);
    SplitLast(u);
    SplitLast(t);
    Cancel(multiset(u[..n]), multiset(t[..n]), t[n]);
  }

  /** And for no others: draws that are all equally likely make all orders of distinct symbols equally likely. */
  lemma {:induction false} OneOrderEach(s: seq<nat>, a: seq<nat>, b: seq<nat>)
    requires NoDup(s) && Draws(a, |s|) && Draws(b, |s|) && Shuffled(s, a) == Shuffled(s, b)
    ensures a == b
    decreases |s|
  {
    hide Shuffled, Swapped;
    if s != [] {
      var n := |s| - 1;
      ShuffledLast(s, a);
      ShuffledLast(s, b);
      assert a[n] == b[n];
      OneOrderEach(Swapped(s, n, a[n])[..n], a[..n], b[..n]);
      assert a == a[..n] + [a[n]] && b == b[..n] + [b[n]];
    }
  }

  /** The positions behind i are done with the draws made; whatever is drawn next, the rest is shuffled by that. */
  ghost predicate Shuffling(s: seq<nat>, t: seq<nat>, i: nat, draws: seq<nat>) {
    && |t| == |s| && i <= |s| && |draws| == |s| - i
    && (forall k :: 0 <= k < |draws| ==> draws[k] <= i + k)
    && forall next :: Draws(next, i) ==>
         Draws(next + draws, |s|) && Shuffled(s, next + draws) == Shuffled(t[..i], next) + t[i..]
  }

  lemma NextDraw(t: seq<nat>, i: nat, j: nat, next: seq<nat>)
    requires j <= i < |t| && Draws(next, i)
    ensures Draws(next + [j], i + 1)
    ensures var t' := Swapped(t, i, j);
            Shuffled(t[..i + 1], next + [j]) + t[i + 1..] == Shuffled(t'[..i], next) + t'[i..]
  {
    var u, t' := Swapped(t[..i + 1], i, j), Swapped(t, i, j);
    assert (next + [j])[..i] == next;
    assert u[..i] == t'[..i] && [u[i]] + t[i + 1..] == t'[i..];
  }

  lemma ShufflingStep(s: seq<nat>, t: seq<nat>, i: nat, draws: seq<nat>, j: nat)
    requires Shuffling(s, t, i + 1, draws) && j <= i < |s|
    ensures Shuffling(s, Swapped(t, i, j), i, [j] + draws)
  {
    hide Shuffled;
    var t' := Swapped(t, i, j);
    forall next | Draws(next, i)
      ensures Draws(next + ([j] + draws), |s|)
      ensures Shuffled(s, next + ([j] + draws)) == Shuffled(t'[..i], next) + t'[i..]
    {
      NextDraw(t, i, j, next);
      assert next + ([j] + draws) == (next + [j]) + draws;
    }
  }

  lemma ShufflingEnds(s: seq<nat>, t: seq<nat>, i: nat, draws: seq<nat>)
    requires Shuffling(s, t, i, draws) && i <= 1
    ensures var all := seq(i, _ => 0) + draws; Draws(all, |s|) && t == Shuffled(s, all)
  {
    hide Shuffled, Shuffling, Draws;
    var next := seq(i, _ => 0);
    NoDraws(i);
    ShufflingFor(s, t, i, draws, next);
    ShuffledShort(t[..i], next);
    assert t[..i] + t[i..] == t;
  }

  lemma NoDraws(i: nat)
    ensures Draws(seq(i, _ => 0), i)
  {
  }

  lemma ShufflingFor(s: seq<nat>, t: seq<nat>, i: nat, draws: seq<nat>, next: seq<nat>)
    requires Shuffling(s, t, i, draws) && Draws(next, i)
    ensures |t| == |s| && i <= |s| && Draws(next + draws, |s|)
    ensures Shuffled(s, next + draws) == Shuffled(t[..i], next) + t[i..]
  {
    hide Shuffled;
  }

  lemma ShuffledShort(s: seq<nat>, draws: seq<nat>)
    requires Draws(draws, |s|) && |s| <= 1
    ensures Shuffled(s, draws) == s
  {
  }

  lemma ShufflingStarts(s: seq<nat>)
    ensures Shuffling(s, s, |s|, [])
  {
    forall next | Draws(next, |s|) ensures Shuffled(s, next + []) == Shuffled(s[..|s|], next) + s[|s|..] {
      assert next + [] == next && s[..|s|] == s;
    }
  }

  /** rand.Shuffle: a Fisher-Yates pass with arbitrary draws. */
  method Shuffle(s: seq<nat>) returns (t: seq<nat>, ghost draws: seq<nat>)
    ensures Draws(draws, |s|) && t == Shuffled(s, draws)
    ensures |t| == |s| && multiset(t) == multiset(s)
    ensures NoDup(s) ==> NoDup(t)
    ensures forall x <- t :: x in s
  {
    hide Shuffling, Shuffled;
    t, draws := s, [];
    ShufflingStarts(s);
    var i := |t| - 1;
    while i > 0
      invariant -1 <= i < |t| == |s| && Shuffling(s, t, i + 1, draws)
    {
      var j: nat :| 0 <= j <= i;
      ShufflingStep(s, t, i, draws, j);
      t := t[i := t[j]][j := t[i]];
      draws := [j] + draws;
      i := i - 1;
    }
    ShufflingEnds(s, t, i + 1, draws);
    draws := seq(i + 1, _ => 0) + draws;
    ShuffledPermutes(s, draws);
    SameMultiset(s, t);
  }
}
