/** One account goroutine: order and trade events, round-robin over the users of a tier. */
module Account {
  import opened Broker
  import opened Bytes
  import opened Counters
  import opened Encoders
  import opened Market
  import opened Msg
  import opened Subjects
  import opened Wrappers
  import Frames
  import Partition
  import Seqs

  /** One published event: a private feed of one user, what was sent to it, and whether the write succeeded. */
  datatype TierEvent = TierEvent(feed: Feed, payload: seq<byte>, ok: bool)

  /** The events as one of the two counters sees them. */
  function View(events: seq<TierEvent>, orders: bool): (v: seq<Action>)
    ensures |v| == |events| && forall a <- v :: a.Attempt?
  {
    seq(|events|, i requires 0 <= i < |events| => Action.Attempt(events[i].feed.Orders? == orders, events[i].ok))
  }

  /** How many of the events are orders, or trades. */
  function Count(events: seq<TierEvent>, orders: bool): nat {
    if events == [] then 0
    else Count(events[..|events| - 1], orders) + if events[|events| - 1].feed.Orders? == orders then 1 else 0
  }

  lemma ViewSnoc(events: seq<TierEvent>, e: TierEvent, orders: bool)
    ensures LocalAfter(ACCOUNT_RULE, View(events + [e], orders))
            == (var local := LocalAfter(ACCOUNT_RULE, View(events, orders)) + if e.feed.Orders? == orders then 1 else 0;
                if e.ok && local == 256 then 0 else local)
    ensures Count(events + [e], orders) == Count(events, orders) + if e.feed.Orders? == orders then 1 else 0
  {
    assert (events + [e])[..|events|] == events;
    assert View(events + [e], orders)[..|events|] == View(events, orders);
  }

  /** The outcomes of a list of events. */
  function Outcomes(events: seq<TierEvent>): (oks: seq<bool>)
    ensures |oks| == |events|
  {
    seq(|events|, i requires 0 <= i < |events| => events[i].ok)
  }

  lemma OutcomesSnoc(events: seq<TierEvent>, e: TierEvent)
    ensures Outcomes(events + [e]) == Outcomes(events) + [e.ok]
  {
  }

  /** The frames of the events that were written. */
  function SentEvents(events: seq<TierEvent>): seq<Frames.Frame> {
    if events == [] then []
    else
      var front, e := SentEvents(events[..|events| - 1]), events[|events| - 1];
      if e.ok then front + [MsgFrame(Subject(e.feed), e.payload)] else front
  }

  lemma SentEventsSnoc(events: seq<TierEvent>, e: TierEvent)
    ensures Frames.EncodeAll(SentEvents(events + [e]))
            == if e.ok then Frames.EncodeAll(SentEvents(events)) + Frames.Encode(MsgFrame(Subject(e.feed), e.payload))
               else Frames.EncodeAll(SentEvents(events))
  {
    hide Frames.Encode;
    assert (events + [e])[..|events|] == events;
    if e.ok {
      Frames.EncodeAllSnoc(SentEvents(events), MsgFrame(Subject(e.feed), e.payload));
    }
  }

  // ---- Whose turn it is ----

  /** The k-th event goes to the k-th user, round and round, and carries the number k: failures do not matter. */
  ghost predicate Turn(e: TierEvent, userIDs: seq<nat>, k: nat)
    requires userIDs != []
  {
    && !e.feed.Market? && e.feed.Index() == userIDs[k % |userIDs|]
    && SeqNoOf(e.payload) == Some(ToUint64(k))
  }

  ghost predicate Turns(events: seq<TierEvent>, userIDs: seq<nat>)
    requires userIDs != []
  {
    forall k :: 0 <= k < |events| ==> Turn(events[k], userIDs, k)
  }

  lemma TurnsSnoc(events: seq<TierEvent>, userIDs: seq<nat>, e: TierEvent)
    requires userIDs != [] && Turns(events, userIDs) && Turn(e, userIDs, |events|)
    ensures Turns(events + [e], userIDs)
  {
    hide Turn;
  }

  /** Every event's message has the size asked for. */
  ghost predicate EventsSized(events: seq<TierEvent>, size: nat) {
    forall e <- events :: |e.payload| == size
  }

  lemma EventsSizedSnoc(events: seq<TierEvent>, size: nat, e: TierEvent)
    requires EventsSized(events, size) && |e.payload| == size
    ensures EventsSized(events + [e], size)
  {
  }

  function EventsOf(events: seq<TierEvent>, uid: nat): nat {
    if events == [] then 0
    else EventsOf(events[..|events| - 1], uid) + if events[|events| - 1].feed.Index() == uid then 1 else 0
  }

  /**
    Whatever fails, attempts are spread over a tier's users like indices over shards: the counts differ by
    at most one. (On the market side it is the successful publishes that are even.)
   */
  lemma {:induction false} EvenTurns(events: seq<TierEvent>, userIDs: seq<nat>, s: nat)
    requires s < |userIDs| && Seqs.NoDup(userIDs) && Turns(events, userIDs)
    ensures EventsOf(events, userIDs[s]) == Partition.StripeCount(|events|, s, |userIDs|)
  {
    if events != [] {
      var k := |events| - 1;
      EvenTurns(events[..k], userIDs, s);
      Partition.StripeCountStep(k, s, |userIDs|);
      hide Partition.StripeCount;
      assert Turn(events[k], userIDs, k);
      assert k % |userIDs| == s <==> userIDs[k % |userIDs|] == userIDs[s];
    }
  }

  class TierPublisher {
    const userIDs: seq<nat>
    const payload: array<byte>
    const ordersPub: Counter
    const tradesPub: Counter
    var seqNo: uint64
    var userIdx: nat
    var localOrders: nat
    var localTrades: nat
    ghost var events: seq<TierEvent>

    ghost predicate Valid()
      reads this
    {
      && userIDs != [] && MIN_SIZE <= payload.Length && ordersPub != tradesPub
      && seqNo == ToUint64(|events|) && userIdx == |events| % |userIDs|
      && localOrders == LocalAfter(ACCOUNT_RULE, View(events, true))
      && localTrades == LocalAfter(ACCOUNT_RULE, View(events, false))
      && Turns(events, userIDs) && EventsSized(events, payload.Length)
    }

    constructor (userIDs: seq<nat>, payloadSize: nat, ordersPub: Counter, tradesPub: Counter)
      requires userIDs != [] && MIN_SIZE <= payloadSize && ordersPub != tradesPub
      ensures Valid() && fresh(payload) && events == []
      ensures this.userIDs == userIDs && payload.Length == payloadSize
      ensures this.ordersPub == ordersPub && this.tradesPub == tradesPub
    {
      this.userIDs, this.ordersPub, this.tradesPub := userIDs, ordersPub, tradesPub;
      payload := new byte[payloadSize](_ => 0);
      seqNo, userIdx, localOrders, localTrades, events := 0, 0, 0, 0, [];
    }

    /** One tick: an order or a trade for the user whose turn it is; a failed one is counted too. */
    method Tick(pub: BinaryPub) returns (ok: bool, ghost e: TierEvent)
      requires Valid() && pub.Valid() && payload != pub.buf.data
      modifies this, payload, ordersPub, tradesPub, pub`out, pub`writes, pub.buf, pub.buf.data
      ensures Valid() && pub.Valid() && (pub.buf.data == old(pub.buf.data) || fresh(pub.buf.data))
      ensures ok == pub.net(old(pub.writes)) && pub.writes == old(pub.writes) + 1
      ensures events == old(events) + [e] && e.ok == ok
      ensures ordersPub.value + localOrders - Count(events, true)
              == old(ordersPub.value) + old(localOrders) - old(Count(events, true))
      ensures tradesPub.value + localTrades - Count(events, false)
              == old(tradesPub.value) + old(localTrades) - old(Count(events, false))
      ensures pub.out == if ok then old(pub.out) + Frames.Encode(MsgFrame(Subject(e.feed), e.payload)) else old(pub.out)
    {
      hide LocalAfter, View, Count, Frames.Encode, ToUint64, Subject, Turns, EventsSized, MsgFrame;
      var isOrder;
      ok, isOrder, e := PublishNext(pub);
      ViewSnoc(events, e, true);
      ViewSnoc(events, e, false);
      TurnsSnoc(events, userIDs, e);
      EventsSizedSnoc(events, payload.Length, e);
      events := events + [e];
      CountEvent(ok, isOrder);
    }

    /** Picks the user and the kind of event, numbers the payload and publishes it. */
    method PublishNext(pub: BinaryPub) returns (ok: bool, isOrder: bool, ghost e: TierEvent)
      requires Valid() && pub.Valid() && payload != pub.buf.data
      modifies this`seqNo, this`userIdx, payload, pub`out, pub`writes, pub.buf, pub.buf.data
      ensures pub.Valid() && (pub.buf.data == old(pub.buf.data) || fresh(pub.buf.data))
      ensures ok == pub.net(old(pub.writes)) && pub.writes == old(pub.writes) + 1
      ensures e.ok == ok && isOrder == e.feed.Orders? && Turn(e, userIDs, |events|) && |e.payload| == payload.Length
      ensures seqNo == ToUint64(|events| + 1) && userIdx == (|events| + 1) % |userIDs|
      ensures pub.out == if ok then old(pub.out) + Frames.Encode(MsgFrame(Subject(e.feed), e.payload)) else old(pub.out)
    {
      hide LocalAfter, View, Frames.Encode, Encoded, ToUint64, Subject, SeqNoOf, MsgFrame, Turns, EventsSized;
      var uid := userIDs[userIdx];
      DivModNext(|events|, |userIDs|);
      NextIndex(userIdx, |userIDs|);
      NextUint64(|events|);
      userIdx := (userIdx + 1) % |userIDs|;
      var now: int64 := *;
      SeqNoOfEncoded(payload[..], now, seqNo);
      Msg.Encode(payload, now, seqNo);
      seqNo := ToUint64(seqNo as int + 1);
      isOrder := *;
      if isOrder {
        ok := pub.Publish(Subject(Orders(uid)), payload[..]);
        e := TierEvent(Orders(uid), payload[..], ok);
      } else {
        ok := pub.Publish(Subject(Trades(uid)), payload[..]);
        e := TierEvent(Trades(uid), payload[..], ok);
      }
    }

    /** The event is counted whether or not it succeeded, but only a success looks at the batch size. */
    method CountEvent(ok: bool, isOrder: bool)
      requires ordersPub != tradesPub
      modifies this`localOrders, this`localTrades, ordersPub, tradesPub
      ensures var local := old(localOrders) + if isOrder then 1 else 0;
              localOrders == if ok && local == 256 then 0 else local
      ensures var local := old(localTrades) + if isOrder then 0 else 1;
              localTrades == if ok && local == 256 then 0 else local
      ensures ordersPub.value + localOrders == old(ordersPub.value) + old(localOrders) + if isOrder then 1 else 0
      ensures tradesPub.value + localTrades == old(tradesPub.value) + old(localTrades) + if isOrder then 0 else 1
    {
      if isOrder {
        localOrders := localOrders + 1;
      } else {
        localTrades := localTrades + 1;
      }
      if ok {
        if localOrders == 256 {
          ordersPub.Add(localOrders);
          localOrders := 0;
        }
        if localTrades == 256 {
          tradesPub.Add(localTrades);
          localTrades := 0;
        }
      }
    }

    /** One connection: `ticks` ticks before stop, ending early at the first failed publish. */
    method RunConnection(pub: BinaryPub, ticks: nat)
      requires Valid() && pub.Valid() && pub.writes == 0 && payload != pub.buf.data
      modifies this, payload, ordersPub, tradesPub, pub`out, pub`writes, pub.buf, pub.buf.data
      ensures Valid() && old(events) <= events
      ensures OneConnection(Outcomes(Since(events, old(events))), Link(ticks, pub.net))
      ensures ordersPub.value + localOrders - Count(events, true)
              == old(ordersPub.value) + old(localOrders) - old(Count(events, true))
      ensures tradesPub.value + localTrades - Count(events, false)
              == old(tradesPub.value) + old(localTrades) - old(Count(events, false))
      ensures pub.out == old(pub.out) + Frames.EncodeAll(SentEvents(Since(events, old(events))))
    {
      hide LocalAfter, View, Count, ToUint64, Frames.Encode, MsgFrame, Subject, SentEvents, Frames.EncodeAll, Since,
           TierPublisher.Valid, Outcomes, GoingOn, OneConnection, Connections, BinaryPub.Valid, Buffer.Valid;
      GoingOnStarts(pub.net);
      NothingSince(events);
      NoEventSent();
      NoOutcomes();
      var i := 0;
      var ok := true;
      while i < ticks && ok
        invariant 0 <= i <= ticks && Valid() && pub.Valid() && payload != pub.buf.data
        invariant (pub.buf.data == old(pub.buf.data) || fresh(pub.buf.data)) && old(events) <= events
        invariant |Since(events, old(events))| == i == pub.writes
        invariant GoingOn(Outcomes(Since(events, old(events))), pub.net, ok)
        invariant ordersPub.value + localOrders - Count(events, true)
                  == old(ordersPub.value) + old(localOrders) - old(Count(events, true))
        invariant tradesPub.value + localTrades - Count(events, false)
                  == old(tradesPub.value) + old(localTrades) - old(Count(events, false))
        invariant pub.out == old(pub.out) + Frames.EncodeAll(SentEvents(Since(events, old(events))))
      {
        ghost var events0 := events;
        ghost var e;
        ok, e := Tick(pub);
        SinceSnoc(old(events), events0, e);
        OutcomesSnoc(Since(events0, old(events)), e);
        GoesOn(Outcomes(Since(events0, old(events))), pub.net, ok);
        SentEventsSnoc(Since(events0, old(events)), e);
        Assoc(old(pub.out), Frames.EncodeAll(SentEvents(Since(events0, old(events)))),
              Frames.Encode(MsgFrame(Subject(e.feed), e.payload)));
        i := i + 1;
      }
      GoingOnEnds(Outcomes(Since(events, old(events))), pub.net, ok, ticks);
    }

    /**
      The whole goroutine: after the final flush both shared counters have grown by exactly the attempts of
      their kind, and the connections have carried exactly the events that were written.
     */
    method Run(connections: seq<Link>) returns (ghost wire: seq<byte>)
      requires Valid()
      modifies this, payload, ordersPub, tradesPub
      ensures old(events) <= events && Turns(events, userIDs) && EventsSized(events, payload.Length)
      ensures Connections(Outcomes(Since(events, old(events))), connections)
      ensures ordersPub.value - old(ordersPub.value)
              == Count(events, true) - old(Count(events, true)) + old(localOrders)
      ensures tradesPub.value - old(tradesPub.value)
              == Count(events, false) - old(Count(events, false)) + old(localTrades)
      ensures wire == Frames.EncodeAll(SentEvents(Since(events, old(events))))
    {
      hide LocalAfter, View, Count, ToUint64, SentEvents, Frames.EncodeAll, Since, Outcomes, OneConnection, Connections,
           Turns, EventsSized;
      NothingSince(events);
      NoEventSent();
      NoOutcomes();
      NoConnection();
      assert connections[..0] == [];
      wire := [];
      var c := 0;
      while c < |connections|
        invariant 0 <= c <= |connections| && Valid() && old(events) <= events
        invariant Connections(Outcomes(Since(events, old(events))), connections[..c])
        invariant ordersPub.value + localOrders - Count(events, true)
                  == old(ordersPub.value) + old(localOrders) - old(Count(events, true))
        invariant tradesPub.value + localTrades - Count(events, false)
                  == old(tradesPub.value) + old(localTrades) - old(Count(events, false))
        invariant wire == Frames.EncodeAll(SentEvents(Since(events, old(events))))
      {
        ghost var events0 := events;
        var pub := new BinaryPub(connections[c].net);
        RunConnection(pub, connections[c].ticks);
        assert Link(connections[c].ticks, connections[c].net) == connections[c];
        wire := wire + pub.out;
        OneMoreOfEvents(old(events), events0, events, connections[..c], connections[c]);
        assert connections[..c + 1] == connections[..c] + [connections[c]];
        c := c + 1;
      }
      assert connections[..c] == connections;
      ordersPub.Add(localOrders);
      tradesPub.Add(localTrades);
    }
  }

  lemma NoOutcomes()
    ensures Outcomes([]) == []
  {
  }

  lemma NoEventSent()
    ensures Frames.EncodeAll(SentEvents([])) == []
  {
  }

  lemma {:induction false} SentEventsAppend(events: seq<TierEvent>, more: seq<TierEvent>)
    ensures SentEvents(events + more) == SentEvents(events) + SentEvents(more)
  {
    if more == [] {
      assert events + more == events;
    } else {
      assert (events + more)[..|events + more| - 1] == events + more[..|more| - 1];
      SentEventsAppend(events, more[..|more| - 1]);
    }
  }

  lemma OneMoreOfEvents(before: seq<TierEvent>, middle: seq<TierEvent>, now: seq<TierEvent>,
                        done: seq<Link>, link: Link)
    requires before <= middle <= now
    requires Connections(Outcomes(Since(middle, before)), done) && OneConnection(Outcomes(Since(now, middle)), link)
    ensures Connections(Outcomes(Since(now, before)), done + [link])
    ensures Frames.EncodeAll(SentEvents(Since(now, before)))
            == Frames.EncodeAll(SentEvents(Since(middle, before))) + Frames.EncodeAll(SentEvents(Since(now, middle)))
  {
    SinceJoins(before, middle, now);
    var a, b := Since(middle, before), Since(now, middle);
    SentEventsAppend(a, b);
    Frames.EncodeAllAppend(SentEvents(a), SentEvents(b));
    var oks := Outcomes(a + b);
    assert oks[..|a|] == Outcomes(a) && oks[|a|..] == Outcomes(b);
    assert (done + [link])[..|done|] == done;
  }

  lemma NextIndex(i: nat, n: nat)
    requires i < n
    ensures (i + 1) % n == if i == n - 1 then 0 else i + 1
  {
    ModUnique(i + 1, n, if i == n - 1 then 1 else 0, if i == n - 1 then 0 else i + 1);
  }
}
