/** Duplicate-free sequences and the sets they enumerate. */
module Seqs {

  ghost predicate NoDup<T>(s: seq<T>) {
    forall i, j :: 0 <= i < j < |s| ==> s[i] != s[j]
  }

  ghost function Elements<T>(s: seq<T>): set<T> {
    set x | x in s
  }

  function Min(a: int, b: int): (m: int)
    ensures m <= a && m <= b && (m == a || m == b)
  {
    if a < b then a else b
  }

  lemma {:induction false} ElementsCard<T>(s: seq<T>)
    ensures |Elements(s)| <= |s|
    ensures NoDup(s) ==> |Elements(s)| == |s|
  {
    if s == [] {
    } else {
      var t, x := s[..|s| - 1], s[|s| - 1];
      ElementsCard(t);
      assert Elements(s) == Elements(t) + {x};
      if NoDup(s) {
        assert NoDup(t) && x !in t;
      }
    }
  }

  /** Two duplicate-free sequences without a common element that cover [0, n) have n elements together. */
  ghost predicate Splits(a: seq<int>, b: seq<int>, n: nat) {
    && NoDup(a) && NoDup(b)
    && (forall x <- a :: 0 <= x < n && x !in b)
    && (forall x <- b :: 0 <= x < n)
    && (forall x :: 0 <= x < n ==> x in a || x in b)
  }

  ghost function Range(n: nat): (r: set<int>)
    ensures forall x :: x in r <==> 0 <= x < n
    ensures |r| == n
  {
    if n == 0 then {} else Range(n - 1) + {n - 1}
  }

  lemma SplitLengths(a: seq<int>, b: seq<int>, n: nat)
    requires Splits(a, b, n)
    ensures |a| + |b| == n
  {
    ElementsCard(a);
    ElementsCard(b);
    assert Range(n) == Elements(a) + Elements(b);
    assert Elements(a) !! Elements(b);
  }

  /** Exchanging an element of one side for one of the other keeps the split. */
  lemma ExchangeKeepsSplit(a: seq<int>, b: seq<int>, n: nat, i: nat, j: nat)
    requires Splits(a, b, n) && i < |a| && j < |b|
    ensures Splits(a[i := b[j]], b[j := a[i]], n)
    ensures forall x :: x in a[i := b[j]] <==> x == b[j] || (x in a && x != a[i])
  {
    var a', b' := a[i := b[j]], b[j := a[i]];
    assert a[i] in a && b[j] in b;
    ReplaceMembers(a, i, b[j]);
    ReplaceMembers(b, j, a[i]);
    forall x | x in a' ensures 0 <= x < n && x !in b' {
      assert x == b[j] || (x in a && x != a[i]);
    }
    assert NoDup(a') && NoDup(b');
    forall x | x in b' ensures 0 <= x < n {
      assert x == a[i] || (x in b && x != b[j]);
    }
    forall x | 0 <= x < n ensures x in a' || x in b' {
      assert x in a || x in b;
    }
  }

  lemma ReplaceMembers(a: seq<int>, i: nat, y: int)
    requires NoDup(a) && i < |a| && y !in a
    ensures NoDup(a[i := y])
    ensures forall x :: x in a[i := y] <==> x == y || (x in a && x != a[i])
  {
    var a' := a[i := y];
    forall x | x in a && x != a[i] ensures x in a' {
      var k :| 0 <= k < |a| && a[k] == x;
      assert a'[k] == x;
    }
    assert a'[i] == y;
  }

  // ---- Chains of exchanges ----

  datatype Sides = Sides(a: seq<int>, b: seq<int>)

  /** One element of the first side has changed places with one of the second. */
  ghost predicate Exchanged(p: Sides, q: Sides) {
    exists i, j :: 0 <= i < |p.a| && 0 <= j < |p.b| && q == Sides(p.a[i := p.b[j]], p.b[j := p.a[i]])
  }

  /** n exchanges in a row lead from p to q. */
  ghost predicate Chain(p: Sides, q: Sides, n: nat)
    decreases n
  {
    if n == 0 then q == p else exists r :: Chain(p, r, n - 1) && Exchanged(r, q)
  }

  lemma ChainStart(p: Sides)
    ensures Chain(p, p, 0)
  {
  }

  lemma ChainStep(p: Sides, r: Sides, n: nat, q: Sides)
    requires Chain(p, r, n) && Exchanged(r, q)
    ensures Chain(p, q, n + 1)
  {
  }

  lemma {:induction false} ChainJoins(p: Sides, r: Sides, m: nat, q: Sides, n: nat)
    requires Chain(p, r, m) && Chain(r, q, n)
    ensures Chain(p, q, m + n)
    decreases n
  {
    if n > 0 {
      var s :| Chain(r, s, n - 1) && Exchanged(s, q);
      ChainJoins(p, r, m, s, n - 1);
    }
  }

  /** The number of positions at which two sequences differ. */
  function Distance(a: seq<int>, b: seq<int>): nat
    requires |a| == |b|
  {
    if a == [] then 0
    else Distance(a[..|a| - 1], b[..|a| - 1]) + if a[|a| - 1] != b[|a| - 1] then 1 else 0
  }

  lemma {:induction false} DistanceOfUpdate(a: seq<int>, b: seq<int>, i: nat, x: int)
    requires |a| == |b| && i < |a|
    ensures Distance(a, b[i := x]) <= Distance(a, b) + 1
  {
    var front := b[..|a| - 1];
    if i < |a| - 1 {
      DistanceOfUpdate(a[..|a| - 1], front, i, x);
      assert b[i := x][..|a| - 1] == front[i := x];
    } else {
      assert b[i := x][..|a| - 1] == front;
    }
  }

  lemma {:induction false} DistanceToSelf(a: seq<int>)
    ensures Distance(a, a) == 0
  {
    if a != [] {
      DistanceToSelf(a[..|a| - 1]);
    }
  }

  /** A chain of n exchanges changes at most n positions of the first side, and both sides keep their lengths. */
  lemma {:induction false} ChainIsShort(p: Sides, q: Sides, n: nat)
    requires Chain(p, q, n)
    ensures |q.a| == |p.a| && |q.b| == |p.b| && Distance(p.a, q.a) <= n
    decreases n
  {
    if n == 0 {
      DistanceToSelf(p.a);
    } else {
      var r :| Chain(p, r, n - 1) && Exchanged(r, q);
      ChainIsShort(p, r, n - 1);
      var i, j :| 0 <= i < |r.a| && 0 <= j < |r.b| && q == Sides(r.a[i := r.b[j]], r.b[j := r.a[i]]);
      DistanceOfUpdate(p.a, r.a, i, r.b[j]);
    }
  }
}
