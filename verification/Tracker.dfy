/** Gap and duplicate accounting on the messages of one subscription. */
module Tracker {
  import opened Bytes
  import opened Msg
  import opened Wrappers

  /** A received payload and the receiver's clock when it arrived. */
  datatype Arrival = Arrival(payload: seq<byte>, nowNs: int64)

  /** The counters of a user shard, which all its subscriptions add to: 64-bit integers that wrap around. */
  class ShardStats {
    var marketRx: int64
    var gapCount: int64
    var dupCount: int64
    /** What has been added to each. */
    ghost var rxTotal: nat
    ghost var gapTotal: int
    ghost var dupTotal: nat

    ghost predicate Valid()
      reads this
    {
      marketRx == ToInt64(rxTotal) && gapCount == ToInt64(gapTotal) && dupCount == ToInt64(dupTotal)
    }

    constructor ()
      ensures Valid() && rxTotal == gapTotal == dupTotal == 0
    {
      marketRx, gapCount, dupCount := 0, 0, 0;
      rxTotal, gapTotal, dupTotal := 0, 0, 0;
    }

    method CountReceived()
      requires Valid()
      modifies this`marketRx, this`rxTotal
      ensures Valid() && rxTotal == old(rxTotal) + 1
    {
      AddWraps(rxTotal, 1);
      marketRx, rxTotal := ToInt64(marketRx + 1), rxTotal + 1;
    }

    method CountGaps(n: int64)
      requires Valid()
      modifies this`gapCount, this`gapTotal
      ensures Valid() && gapTotal == old(gapTotal) + n
    {
      AddWraps(gapTotal, n);
      gapCount, gapTotal := ToInt64(gapCount + n), gapTotal + n;
    }

    method CountDuplicate()
      requires Valid()
      modifies this`dupCount, this`dupTotal
      ensures Valid() && dupTotal == old(dupTotal) + 1
    {
      AddWraps(dupTotal, 1);
      dupCount, dupTotal := ToInt64(dupCount + 1), dupTotal + 1;
    }
  }

  /** The sequence state of one subscription, whose callback adds to the shard's counters. */
  class SeqState {
    const shard: ShardStats
    var last: uint64
    var init: bool
    /** The latencies recorded: every 500th sequence number with a positive latency. */
    var recorded: seq<int>
    /** What this subscription has contributed. */
    ghost var received: nat
    ghost var gaps: int
    ghost var dups: nat

    constructor (shard: ShardStats)
      ensures this.shard == shard && State() == START && received == 0 && recorded == []
    {
      this.shard := shard;
      last, init, recorded, received, gaps, dups := 0, false, [], 0, 0, 0;
    }

    ghost function State(): Totals
      reads this
    {
      Totals(if init then Some(last) else None, gaps, dups)
    }

    /** What other subscriptions have added to the shard's counters. */
    ghost function Others(): (int, int, int)
      reads this, shard
    {
      (shard.rxTotal - received, shard.gapTotal - gaps, shard.dupTotal - dups)
    }

    /** The market callback. The shard's counters grow by exactly what this subscription contributes. */
    method OnMessage(a: Arrival)
      requires shard.Valid()
      modifies this, shard
      ensures shard.Valid() && Others() == old(Others())
      ensures received == old(received) + 1
      ensures State() == match Decode(a.payload, a.nowNs)
                         case None => old(State())
                         case Some(d) => Step(old(State()), d.seqNo)
      ensures recorded == match Decode(a.payload, a.nowNs)
                          case None => old(recorded)
                          case Some(d) =>
                            if d.latencyNs > 0 && d.seqNo % 500 == 0
                            then old(recorded) + [d.latencyNs] else old(recorded)
    {
      hide Decode, ToInt64, ToUint64;
      shard.CountReceived();
      received := received + 1;
      var decoded := Decode(a.payload, a.nowNs);
      if decoded.Some? {
        var seqNo := decoded.value.seqNo;
        if init {
          if seqNo > ToUint64(last + 1) {
            var n := ToInt64(ToUint64(seqNo - last - 1));
            shard.CountGaps(n);
            gaps := gaps + n;
          } else if seqNo <= last {
            shard.CountDuplicate();
            dups := dups + 1;
          }
        }
        last, init := seqNo, true;
        if decoded.value.latencyNs > 0 && seqNo % 500 == 0 {
          recorded := recorded + [decoded.value.latencyNs];
        }
      }
    }

    /** Any number of arrivals. */
    method OnMessages(arrivals: seq<Arrival>)
      requires shard.Valid()
      modifies this, shard
      ensures shard.Valid() && Others() == old(Others())
      ensures received == old(received) + |arrivals|
      ensures State() == Track(old(State()), SeqNos(arrivals))
    {
      var i := 0;
      while i < |arrivals|
        invariant 0 <= i <= |arrivals| && received == old(received) + i
        invariant shard.Valid() && Others() == old(Others())
        invariant State() == Track(old(State()), SeqNos(arrivals[..i]))
      {
        assert arrivals[..i + 1][..i] == arrivals[..i];
        TrackSnoc(old(State()), SeqNos(arrivals[..i]), SeqNos(arrivals[..i + 1]));
        OnMessage(arrivals[i]);
        i := i + 1;
      }
      assert arrivals[..i] == arrivals;
    }
  }

  /** What a run of the tracker adds up to: the last number seen, the gaps and the duplicates. */
  datatype Totals = Totals(last: Option<uint64>, gaps: int, dups: nat)

  const START := Totals(None, 0, 0)

  /** What one arrival adds to the gaps: the source's 64-bit arithmetic, wrap-around included. */
  function GapOf(last: uint64, seqNo: uint64): int {
    if seqNo > ToUint64(last + 1) then ToInt64(ToUint64(seqNo - last - 1)) else 0
  }

  function DupOf(last: uint64, seqNo: uint64): nat {
    if seqNo > ToUint64(last + 1) then 0 else if seqNo <= last then 1 else 0
  }

  function Step(t: Totals, seqNo: uint64): Totals {
    if t.last.None? then Totals(Some(seqNo), t.gaps, t.dups)
    else Totals(Some(seqNo), t.gaps + GapOf(t.last.value, seqNo), t.dups + DupOf(t.last.value, seqNo))
  }

  function Track(t: Totals, ns: seq<uint64>): Totals {
    if ns == [] then t else Step(Track(t, ns[..|ns| - 1]), ns[|ns| - 1])
  }

  /** The sequence numbers of the arrivals that decode, in order. */
  function SeqNos(arrivals: seq<Arrival>): seq<uint64> {
    if arrivals == [] then []
    else
      var front, a := SeqNos(arrivals[..|arrivals| - 1]), arrivals[|arrivals| - 1];
      match Decode(a.payload, a.nowNs) case None => front case Some(d) => front + [d.seqNo]
  }

  lemma TrackSnoc(t: Totals, ns: seq<uint64>, more: seq<uint64>)
    ensures |more| == |ns| + 1 && more[..|ns|] == ns ==> Track(t, more) == Step(Track(t, ns), more[|ns|])
  {
  }

  /** What one arrival should add: the numbers skipped, or one duplicate for a number that is not new. */
  predicate StepExact(last: uint64, seqNo: uint64) {
    && GapOf(last, seqNo) == (if seqNo > last + 1 then seqNo - last - 1 else 0)
    && DupOf(last, seqNo) == (if seqNo <= last then 1 else 0)
  }

  /** The 64-bit arithmetic does not wrap: the last number was not the largest one, and fewer than 2^63 are skipped. */
  predicate Safe(last: uint64, seqNo: uint64) {
    !(last == U64 - 1 && seqNo > 0) && seqNo - last - 1 < I64
  }

  lemma StepExactIff(last: uint64, seqNo: uint64)
    ensures StepExact(last, seqNo) <==> Safe(last, seqNo)
  {
  }

  /** Total backward movement of the sequence numbers. */
  function Backward(ns: seq<uint64>): nat {
    if |ns| <= 1 then 0
    else
      var a, b := ns[|ns| - 2], ns[|ns| - 1];
      Backward(ns[..|ns| - 1]) + if b < a then a - b else 0
  }

  /**
    How far off one step is. After the largest number, any other number is booked as a gap of its own size,
    read as a signed number; elsewhere a skip of 2^63 or more is read as a negative one.
   */
  function WrapError(last: uint64, seqNo: uint64): int {
    if last == U64 - 1 then
      if seqNo == 0 then 0 else if seqNo < I64 then seqNo + 1 else seqNo + 1 - U64
    else if seqNo - last - 1 >= I64 then -(U64 as int)
    else 0
  }

  function Error(ns: seq<uint64>): int {
    if |ns| <= 1 then 0 else Error(ns[..|ns| - 1]) + WrapError(ns[|ns| - 2], ns[|ns| - 1])
  }

  /** One step: what is booked, against the way the numbers have moved forward. */
  lemma StepLaw(last: uint64, seqNo: uint64)
    ensures GapOf(last, seqNo) + 1 - DupOf(last, seqNo)
            == (if seqNo >= last then seqNo - last else 0) + WrapError(last, seqNo)
    ensures Safe(last, seqNo) ==> WrapError(last, seqNo) == 0
  {
  }

  lemma {:induction false} LastSeen(ns: seq<uint64>)
    requires ns != []
    ensures Track(START, ns).last == Some(ns[|ns| - 1])
  {
  }

  /**
    For every non-empty stream of 64-bit sequence numbers, in any order and with any repetitions:
    gaps plus further arrivals minus duplicates account for the distance covered plus all backward movement,
    up to the wrap-around of single steps.
   */
  lemma {:induction false} AccountingLaw(ns: seq<uint64>)
    requires ns != []
    ensures var t := Track(START, ns);
            t.gaps + (|ns| - 1) - t.dups == (ns[|ns| - 1] - ns[0]) + Backward(ns) + Error(ns)
  {
    if |ns| > 1 {
      var front := ns[..|ns| - 1];
      AccountingLaw(front);
      LastSeen(front);
      StepLaw(ns[|ns| - 2], ns[|ns| - 1]);
      hide GapOf, DupOf, WrapError;
    }
  }

  /** No step wraps. */
  ghost predicate NoWrap(ns: seq<uint64>) {
    forall i :: 0 < i < |ns| ==> Safe(ns[i - 1], ns[i])
  }

  lemma {:induction false} NoError(ns: seq<uint64>)
    requires NoWrap(ns)
    ensures Error(ns) == 0
  {
    if |ns| > 1 {
      NoError(ns[..|ns| - 1]);
      StepLaw(ns[|ns| - 2], ns[|ns| - 1]);
    }
  }

  /** The law without an error term holds exactly when the errors cancel; where no step wraps there are none. */
  lemma ExactAccountingIff(ns: seq<uint64>)
    requires ns != []
    ensures var t := Track(START, ns);
            t.gaps + (|ns| - 1) - t.dups == (ns[|ns| - 1] - ns[0]) + Backward(ns) <==> Error(ns) == 0
    ensures NoWrap(ns) ==> Error(ns) == 0
  {
    AccountingLaw(ns);
    if NoWrap(ns) {
      NoError(ns);
    }
  }

  /** The law needs it: after 2^64 - 1, the number 5 is booked as five missed messages. */
  lemma LawFailsAtTheTop()
    ensures var ns := [U64 - 1, 5];
            Track(START, ns) == Totals(Some(5), 5, 0) && Error(ns) == 6
  {
    var ns: seq<uint64> := [U64 - 1, 5];
    assert ns[..1] == [U64 - 1];
    assert Track(START, ns[..1]) == Step(Track(START, []), U64 - 1);
  }

  ghost predicate Consecutive(ns: seq<uint64>) {
    forall i :: 0 < i < |ns| ==> ns[i] as int == ns[i - 1] as int + 1
  }

  /**
    A stream has no hole and no repetition exactly when no step wraps and neither gaps nor duplicates are
    reported. Where no step wraps, the gaps are never negative.
   */
  lemma {:induction false} CleanIffConsecutive(ns: seq<uint64>)
    ensures NoWrap(ns) ==> Track(START, ns).gaps >= 0
    ensures Consecutive(ns) <==> NoWrap(ns) && Track(START, ns).gaps == 0 && Track(START, ns).dups == 0
  {
    if |ns| > 1 {
      var front, a, b := ns[..|ns| - 1], ns[|ns| - 2], ns[|ns| - 1];
      CleanIffConsecutive(front);
      LastSeen(front);
      StepExactIff(a, b);
      hide GapOf, DupOf;
      assert Consecutive(ns) <==> Consecutive(front) && b as int == a as int + 1;
      assert NoWrap(ns) <==> NoWrap(front) && Safe(a, b);
    } else if |ns| == 1 {
      assert ns[..0] == [];
    }
  }

  /** Where steps wrap, a clean bill can be wrong: two gaps cancel each other. */
  lemma CleanFailsAtTheTop()
    ensures var ns := [0, U64 - 1, 2]; Track(START, ns) == Totals(Some(2), 0, 0) && !Consecutive(ns)
  {
    var ns: seq<uint64> := [0, U64 - 1, 2];
    assert ns[..1] == [0] && ns[..2] == [0, U64 - 1] && ns[..2][..1] == [0];
    assert Track(START, [0]) == Step(Track(START, []), 0);
    assert Track(START, ns[..2]) == Step(Track(START, [0]), U64 - 1) == Totals(Some(U64 - 1), -2, 0);
    assert ns[1] as int != ns[0] as int + 1;
  }

  // ---- Streams whose numbers only go up ----

  ghost predicate Increasing(ns: seq<uint64>) {
    forall i, j :: 0 <= i < j < |ns| ==> ns[i] < ns[j]
  }

  lemma {:induction false} NoBackward(ns: seq<uint64>)
    requires Increasing(ns)
    ensures Backward(ns) == 0
  {
    if |ns| > 1 {
      NoBackward(ns[..|ns| - 1]);
    }
  }

  lemma {:induction false} NoDups(ns: seq<uint64>)
    requires Increasing(ns)
    ensures Track(START, ns).dups == 0
  {
    if |ns| > 1 {
      var front := ns[..|ns| - 1];
      NoDups(front);
      LastSeen(front);
    } else if |ns| == 1 {
      assert ns[..0] == [];
    }
  }

  /** The numbers from first to last that never arrived. */
  ghost function Missing(ns: seq<uint64>): set<int>
    requires ns != []
  {
    set n | ns[0] <= n <= ns[|ns| - 1] && n !in ns
  }

  /** The integers strictly between a and b. */
  ghost function Between(a: int, b: int): (r: set<int>)
    ensures forall n :: n in r <==> a < n < b
    ensures |r| == if a < b then b - a - 1 else 0
    decreases b - a
  {
    if b <= a + 1 then {} else Between(a, b - 1) + {b - 1}
  }

  lemma MissingStep(front: seq<uint64>, b: uint64)
    requires front != [] && Increasing(front + [b])
    ensures Missing(front + [b]) == Missing(front) + Between(front[|front| - 1], b)
    ensures Missing(front) !! Between(front[|front| - 1], b)
  {
    var a, ns := front[|front| - 1], front + [b];
    assert forall i :: 0 <= i < |front| ==> ns[i] == front[i];
    assert a == ns[|front| - 1] < b == ns[|front|];
    forall n ensures n in Missing(ns) <==> n in Missing(front) || n in Between(a, b) {
      if n in front {
        var i :| 0 <= i < |front| && front[i] == n;
        assert ns[i] <= a;
      }
      assert n in ns <==> n in front || n == b;
      assert ns[0] == front[0] <= a;
    }
  }

  lemma {:induction false} MissingCount(ns: seq<uint64>)
    requires ns != [] && Increasing(ns)
    ensures |Missing(ns)| == ns[|ns| - 1] as int - ns[0] as int + 1 - |ns|
  {
    if |ns| == 1 {
      assert Missing(ns) == {};
    } else {
      var front := ns[..|ns| - 1];
      assert ns == front + [ns[|ns| - 1]];
      MissingCount(front);
      MissingStep(front, ns[|ns| - 1]);
    }
  }

  /** In increasing numbers only a skip of 2^63 or more goes wrong, and always in the same direction. */
  lemma {:induction false} ErrorIffWrap(ns: seq<uint64>)
    requires Increasing(ns)
    ensures Error(ns) <= 0 && (Error(ns) == 0 <==> NoWrap(ns))
  {
    if |ns| > 1 {
      var front, a, b := ns[..|ns| - 1], ns[|ns| - 2], ns[|ns| - 1];
      ErrorIffWrap(front);
      assert a < b;
      assert NoWrap(ns) <==> NoWrap(front) && Safe(a, b);
    }
  }

  /**
    When numbers arrive in increasing order there are no duplicates; and arrivals and gaps together are
    exactly the numbers from the first to the last, and the gaps those among them that never arrived, if and
    only if no step skips 2^63 numbers or more.
   */
  lemma GapsAreTheMissingIff(ns: seq<uint64>)
    requires ns != [] && Increasing(ns)
    ensures var t := Track(START, ns);
            && t.dups == 0
            && (|ns| + t.gaps == ns[|ns| - 1] as int - ns[0] as int + 1 <==> NoWrap(ns))
            && (t.gaps == |Missing(ns)| <==> NoWrap(ns))
  {
    AccountingLaw(ns);
    ErrorIffWrap(ns);
    NoBackward(ns);
    NoDups(ns);
    MissingCount(ns);
  }

  /** Numbers below 2^63 never wrap. */
  lemma SmallNeverWraps(ns: seq<uint64>)
    requires forall n <- ns :: n < I64
    ensures NoWrap(ns)
  {
    forall i | 0 < i < |ns| ensures Safe(ns[i - 1], ns[i]) {
      assert ns[i - 1] in ns && ns[i] in ns;
    }
  }
}
