/** From one publisher's attempts, through a lossy broker and the read loop, to one subscription's accounting. */
module EndToEnd {
  import opened Broker
  import opened Bytes
  import opened Frames
  import opened Linking
  import opened Market
  import opened Msg
  import opened Ownership
  import opened Partition
  import opened Seqs
  import opened Subjects
  import opened Tracker
  import opened Transport
  import opened User
  import opened Visibility
  import opened Wrappers

  /** a is b with some elements left out: a channel that loses messages but keeps order and never repeats. */
  ghost predicate Subseq<T>(a: seq<T>, b: seq<T>)
    decreases |b|
  {
    a == []
    || (b != [] && ((a[|a| - 1] == b[|b| - 1] && Subseq(a[..|a| - 1], b[..|b| - 1])) || Subseq(a, b[..|b| - 1])))
  }

  /** The payloads of the attempts on one slot. */
  function PayloadsOf(log: seq<Attempt>, slot: nat): seq<seq<byte>> {
    if log == [] then []
    else
      var front, a := PayloadsOf(log[..|log| - 1], slot), log[|log| - 1];
      if a.slot == slot then front + [a.payload] else front
  }

  /** The payloads of the message frames with one subject. */
  function PayloadsFor(fs: seq<Frame>, subject: GoString): seq<seq<byte>> {
    if fs == [] then []
    else if IsMessage(fs[0]) && fs[0].subject == subject then [fs[0].payload] + PayloadsFor(fs[1..], subject)
    else PayloadsFor(fs[1..], subject)
  }

  /** The payloads one handler was called with. */
  function Received(ds: seq<Delivery>, feed: Feed): seq<seq<byte>> {
    if ds == [] then []
    else if ds[0].feed == feed then [ds[0].payload] + Received(ds[1..], feed)
    else Received(ds[1..], feed)
  }

  lemma {:induction false} ReceivedAppend(ds: seq<Delivery>, es: seq<Delivery>, feed: Feed)
    ensures Received(ds + es, feed) == Received(ds, feed) + Received(es, feed)
  {
    if ds == [] {
      assert ds + es == es;
    } else {
      assert (ds + es)[1..] == ds[1..] + es;
      ReceivedAppend(ds[1..], es, feed);
    }
  }

  /**
    For any frames and any handler table, a subscription is called with exactly the payloads of the frames
    that carry its own subject, in order; a feed without a handler is never called.
   */
  lemma {:induction false} Demultiplex(fs: seq<Frame>, handlers: Handlers, feed: Feed)
    requires Filed(handlers)
    ensures Received(DispatchAll(fs, handlers), feed)
            == if Subject(feed) in handlers then PayloadsFor(fs, Subject(feed)) else []
  {
    hide Subject;
    if fs != [] {
      Demultiplex(fs[1..], handlers, feed);
      var f := fs[0];
      var first := Dispatch(f, handlers);
      ReceivedAppend(first, DispatchAll(fs[1..], handlers), feed);
      if first != [] {
        assert first[1..] == [];
        assert f.subject == Subject(handlers[f.subject]);
        if f.subject == Subject(feed) {
          SubjectInjective(handlers[f.subject], feed);
        }
      }
    }
  }

  /** The sequence numbers of the payloads that carry one. */
  function Numbers(ps: seq<seq<byte>>): seq<uint64> {
    if ps == [] then []
    else
      var front := Numbers(ps[..|ps| - 1]);
      match SeqNoOf(ps[|ps| - 1]) case None => front case Some(n) => front + [n]
  }

  function Payloads(arrivals: seq<Arrival>): (ps: seq<seq<byte>>)
    ensures |ps| == |arrivals|
  {
    seq(|arrivals|, i requires 0 <= i < |arrivals| => arrivals[i].payload)
  }

  lemma {:induction false} SeqNosAreNumbers(arrivals: seq<Arrival>)
    ensures SeqNos(arrivals) == Numbers(Payloads(arrivals))
  {
    if arrivals != [] {
      var front, a := arrivals[..|arrivals| - 1], arrivals[|arrivals| - 1];
      SeqNosAreNumbers(front);
      assert Payloads(arrivals)[..|arrivals| - 1] == Payloads(front);
      SeqNoOfDecode(a.payload, a.nowNs);
    }
  }

  /** The numbers 0, 1, 2, ... as 64-bit counters count them. */
  function CountUp(k: nat): (ns: seq<uint64>)
    ensures |ns| == k
  {
    seq(k, i => ToUint64(i))
  }

  lemma NumberedFront(log: seq<Attempt>, n: nat, oks: seq<bool>)
    requires 0 < n && Numbered(log, n, oks) && log != []
    ensures Numbered(log[..|log| - 1], n, oks[..|oks| - 1])
  {
    var front := oks[..|oks| - 1];
    forall k | 0 <= k < |log| - 1 ensures NumberedAt(log[k], n, front, k) {
      assert NumberedAt(log[k], n, oks, k);
      assert front[..k] == oks[..k];
    }
  }

  lemma NumbersSnoc(ps: seq<seq<byte>>, p: seq<byte>)
    ensures Numbers(ps + [p]) == match SeqNoOf(p) case None => Numbers(ps) case Some(n) => Numbers(ps) + [n]
  {
    assert (ps + [p])[..|ps|] == ps;
  }

  lemma CountUpSnoc(k: nat)
    ensures CountUp(k + 1) == CountUp(k) + [ToUint64(k)]
  {
  }

  /** The attempts on a slot are numbered 0, 1, 2, ... without a hole, across failures and reconnects. */
  lemma {:induction false} SlotNumbers(log: seq<Attempt>, n: nat, oks: seq<bool>, slot: nat)
    requires 0 < n && Numbered(log, n, oks)
    ensures Numbers(PayloadsOf(log, slot)) == CountUp(Tries(n, oks, slot))
    ensures |PayloadsOf(log, slot)| == Tries(n, oks, slot)
  {
    if log != [] {
      var front, a := log[..|log| - 1], log[|log| - 1];
      NumberedFront(log, n, oks);
      SlotNumbers(front, n, oks[..|oks| - 1], slot);
      assert NumberedAt(a, n, oks, |log| - 1);
      hide ToUint64, SeqNoOf, SlotAfter, Numbered, NumberedAt, CountUp, Numbers;
      NumbersSnoc(PayloadsOf(front, slot), a.payload);
      CountUpSnoc(Tries(n, oks[..|oks| - 1], slot));
    } else {
      assert CountUp(0) == [];
    }
  }

  lemma {:induction false} SubseqNumbers(a: seq<seq<byte>>, b: seq<seq<byte>>)
    requires Subseq(a, b) && |Numbers(b)| == |b|
    ensures Subseq(Numbers(a), Numbers(b)) && |Numbers(a)| == |a|
    decreases |b|
  {
    hide SeqNoOf;
    if a != [] {
      var b' := b[..|b| - 1];
      NumbersAtMost(b');
      assert Numbers(b)[..|b| - 1] == Numbers(b');
      if a[|a| - 1] == b[|b| - 1] && Subseq(a[..|a| - 1], b') {
        SubseqNumbers(a[..|a| - 1], b');
        assert Numbers(a)[..|a| - 1] == Numbers(a[..|a| - 1]);
      } else {
        SubseqNumbers(a, b');
      }
    }
  }

  lemma {:induction false} NumbersAtMost(ps: seq<seq<byte>>)
    ensures |Numbers(ps)| <= |ps|
  {
    if ps != [] {
      NumbersAtMost(ps[..|ps| - 1]);
    }
  }

  lemma {:induction false} SubseqMembers(a: seq<uint64>, b: seq<uint64>)
    requires Subseq(a, b)
    ensures forall i :: 0 <= i < |a| ==> a[i] in b
    decreases |b|
  {
    if a != [] {
      var b' := b[..|b| - 1];
      if a[|a| - 1] == b[|b| - 1] && Subseq(a[..|a| - 1], b') {
        SubseqMembers(a[..|a| - 1], b');
        assert forall i :: 0 <= i < |a| - 1 ==> a[i] == a[..|a| - 1][i];
      } else {
        SubseqMembers(a, b');
      }
      assert forall x :: x in b' ==> x in b;
    }
  }

  lemma {:induction false} SubseqIncreasing(a: seq<uint64>, b: seq<uint64>)
    requires Subseq(a, b) && Increasing(b)
    ensures Increasing(a)
    decreases |b|
  {
    if a != [] {
      var b' := b[..|b| - 1];
      var a' := a[..|a| - 1];
      if a[|a| - 1] == b[|b| - 1] && Subseq(a', b') {
        SubseqIncreasing(a', b');
        SubseqMembers(a', b');
        forall i | 0 <= i < |a| - 1 ensures a[i] < a[|a| - 1] {
          assert a'[i] in b';
        }
      } else {
        SubseqIncreasing(a, b');
      }
    }
  }

  lemma CountUpShape(k: nat)
    requires k <= I64
    ensures Increasing(CountUp(k)) && forall x <- CountUp(k) :: x < I64
  {
    assert forall i :: 0 <= i < k ==> CountUp(k)[i] == i;
  }

  /**
    Every arrival decodes, to a number below 2^63; arrivals and gaps add up to the numbers from first to last;
    the gaps are exactly the numbers in that range that never arrived; and there are no duplicates.
   */
  ghost predicate Accounted(arrivals: seq<Arrival>) {
    && |SeqNos(arrivals)| == |arrivals| && (forall n <- SeqNos(arrivals) :: n < I64)
    && (arrivals != [] ==>
          var ns, t := SeqNos(arrivals), Track(START, SeqNos(arrivals));
          && |arrivals| + t.gaps == ns[|ns| - 1] as int - ns[0] as int + 1
          && t.gaps == |Missing(ns)| && t.dups == 0)
  }

  lemma AccountedIfIncreasing(arrivals: seq<Arrival>)
    requires |SeqNos(arrivals)| == |arrivals| && Increasing(SeqNos(arrivals)) && forall n <- SeqNos(arrivals) :: n < I64
    ensures Accounted(arrivals)
  {
    hide SeqNos, Track, Missing, Increasing, NoWrap;
    SmallNeverWraps(SeqNos(arrivals));
    if arrivals != [] {
      GapsAreTheMissingIff(SeqNos(arrivals));
    }
  }

  /** What a subscription makes of any selection, in order, of the messages of one symbol's attempts. */
  lemma Accounting(log: seq<Attempt>, n: nat, oks: seq<bool>, slot: nat, arrivals: seq<Arrival>)
    requires 0 < n && Numbered(log, n, oks) && |oks| <= I64
    requires Subseq(Payloads(arrivals), PayloadsOf(log, slot))
    ensures Accounted(arrivals)
  {
    hide Numbered, Tries, CountUp, SeqNos, Numbers, Payloads, PayloadsOf, Subseq, Increasing, Accounted;
    var sent, got, k := PayloadsOf(log, slot), Payloads(arrivals), Tries(n, oks, slot);
    SlotNumbers(log, n, oks, slot);
    TriesSplit(n, oks, slot);
    SubseqNumbers(got, sent);
    SeqNosAreNumbers(arrivals);
    CountUpShape(k);
    SubseqIncreasing(SeqNos(arrivals), CountUp(k));
    SubseqMembers(SeqNos(arrivals), CountUp(k));
    AccountedIfIncreasing(arrivals);
  }

  // ---- Subsequences ----

  lemma {:induction false} SubseqTransitive<T>(a: seq<T>, b: seq<T>, c: seq<T>)
    requires Subseq(a, b) && Subseq(b, c)
    ensures Subseq(a, c)
    decreases |c|
  {
    if a != [] {
      var c' := c[..|c| - 1];
      if b[|b| - 1] == c[|c| - 1] && Subseq(b[..|b| - 1], c') {
        if a[|a| - 1] == b[|b| - 1] && Subseq(a[..|a| - 1], b[..|b| - 1]) {
          SubseqTransitive(a[..|a| - 1], b[..|b| - 1], c');
        } else {
          SubseqTransitive(a, b[..|b| - 1], c');
        }
      } else {
        SubseqTransitive(a, b, c');
      }
    }
  }

  lemma {:induction false} SubseqOfPrefix<T>(a: seq<T>, b: seq<T>)
    ensures Subseq(a, a + b)
    decreases |a| + |b|
  {
    if b != [] {
      assert (a + b)[..|a + b| - 1] == a + b[..|b| - 1];
      SubseqOfPrefix(a, b[..|b| - 1]);
    } else if a != [] {
      assert a + b == a && a[..|a| - 1] + [] == a[..|a| - 1];
      SubseqOfPrefix(a[..|a| - 1], []);
    }
  }

  lemma {:induction false} SubseqOfSuffix<T>(a: seq<T>, b: seq<T>)
    ensures Subseq(b, a + b)
  {
    if b != [] {
      assert (a + b)[..|a + b| - 1] == a + b[..|b| - 1];
      SubseqOfSuffix(a, b[..|b| - 1]);
    }
  }

  // ---- Subscriptions that come and go ----

  lemma {:induction false} PayloadsForAppend(fs: seq<Frame>, gs: seq<Frame>, subject: GoString)
    ensures PayloadsFor(fs + gs, subject) == PayloadsFor(fs, subject) + PayloadsFor(gs, subject)
  {
    if fs == [] {
      assert fs + gs == gs;
    } else {
      assert (fs + gs)[1..] == fs[1..] + gs;
      PayloadsForAppend(fs[1..], gs, subject);
    }
  }

  /** The payloads of a stretch of frames are among those of all frames, in order. */
  lemma WindowIsSubseq(fs: seq<Frame>, i: nat, j: nat, subject: GoString)
    requires i <= j <= |fs|
    ensures Subseq(PayloadsFor(fs[i..j], subject), PayloadsFor(fs, subject))
  {
    var a, b, c := fs[..i], fs[i..j], fs[j..];
    assert fs == a + b + c;
    PayloadsForAppend(a + b, c, subject);
    PayloadsForAppend(a, b, subject);
    SubseqOfSuffix(PayloadsFor(a, subject), PayloadsFor(b, subject));
    SubseqOfPrefix(PayloadsFor(a + b, subject), PayloadsFor(c, subject));
    SubseqTransitive(PayloadsFor(b, subject), PayloadsFor(a + b, subject), PayloadsFor(fs, subject));
  }

  lemma ReceivedOne(f: Frame, handlers: Handlers, feed: Feed)
    requires Filed(handlers) && Subject(feed) in handlers
    ensures Received(Dispatch(f, handlers), feed) == PayloadsFor([f], Subject(feed))
  {
    assert [f][1..] == [];
    assert DispatchAll([f], handlers) == Dispatch(f, handlers) + [] == Dispatch(f, handlers);
    Demultiplex([f], handlers, feed);
  }

  /** While handlers of other subjects come and go, a subscription that stays gets just what it always gets. */
  lemma {:induction false} DemultiplexEach(fs: seq<Frame>, tables: seq<Handlers>, feed: Feed)
    requires |fs| == |tables|
    requires forall t <- tables :: Filed(t) && Subject(feed) in t
    ensures Received(DispatchEach(fs, tables), feed) == PayloadsFor(fs, Subject(feed))
  {
    hide Subject, Dispatch;
    if fs != [] {
      var front, last, t := fs[..|fs| - 1], fs[|fs| - 1], tables[|fs| - 1];
      assert t in tables && forall u <- tables[..|fs| - 1] :: u in tables;
      DemultiplexEach(front, tables[..|fs| - 1], feed);
      ReceivedAppend(DispatchEach(front, tables[..|fs| - 1]), Dispatch(last, t), feed);
      ReceivedOne(last, t, feed);
      assert fs == front + [last];
      PayloadsForAppend(front, [last], Subject(feed));
    }
  }

  /**
    Take any run of a publisher, with any failed publishes and reconnects; any frames that reach a subscriber
    through a broker that may lose but neither reorders nor repeats this symbol's messages, mixed with any
    other traffic; and any subscription that is live for any stretch of reading, while other subscriptions
    of the same connection come and go. Then its fresh tracker accounts for exactly what it missed.
   */
  lemma ConservationWhileLive(log: seq<Attempt>, n: nat, oks: seq<bool>, slot: nat,
                              read: seq<Frame>, tables: seq<Handlers>, i: nat, j: nat, feed: Feed,
                              arrivals: seq<Arrival>)
    requires 0 < n && Numbered(log, n, oks) && |oks| <= I64
    requires |read| == |tables| && i <= j <= |read|
    requires forall k :: i <= k < j ==> Filed(tables[k]) && Subject(feed) in tables[k]
    requires Subseq(PayloadsFor(read, Subject(feed)), PayloadsOf(log, slot))
    requires Payloads(arrivals) == Received(DispatchEach(read[i..j], tables[i..j]), feed)
    ensures Accounted(arrivals)
  {
    hide Subject, Accounted;
    DemultiplexEach(read[i..j], tables[i..j], feed);
    WindowIsSubseq(read, i, j, Subject(feed));
    SubseqTransitive(Payloads(arrivals), PayloadsFor(read, Subject(feed)), PayloadsOf(log, slot));
    Accounting(log, n, oks, slot, arrivals);
  }

  /** The same for all the frames of a byte stream, which the read loop takes to its end with a fixed handler table. */
  lemma Conservation(log: seq<Attempt>, n: nat, oks: seq<bool>, slot: nat,
                     read: seq<Frame>, handlers: Handlers, feed: Feed, arrivals: seq<Arrival>)
    requires 0 < n && Numbered(log, n, oks) && |oks| <= I64
    requires Filed(handlers) && Subject(feed) in handlers
    requires Subseq(PayloadsFor(read, Subject(feed)), PayloadsOf(log, slot))
    requires Payloads(arrivals) == Received(DispatchAll(read, handlers), feed)
    ensures Accounted(arrivals)
  {
    Demultiplex(read, handlers, feed);
    Accounting(log, n, oks, slot, arrivals);
  }

  // ---- The whole path ----

  /** The broker may lose messages of a subject, but neither reorders nor repeats them. */
  ghost predicate BrokerKeepsOrder(read: seq<Frame>, x: GoString, log: seq<Attempt>, slot: nat) {
    Subseq(PayloadsFor(read, x), PayloadsOf(log, slot))
  }

  /** The arrivals are what a subscription is called with in its life. */
  ghost predicate ArriveIn(arrivals: seq<Arrival>, read: seq<Frame>, tables: seq<Handlers>, l: Life)
    requires |read| == |tables| && l.from <= l.to <= |read|
  {
    Payloads(arrivals) == Received(DispatchEach(read[l.from..l.to], tables[l.from..l.to]), l.feed)
  }

  lemma PrefixKeepsOrder(read: seq<Frame>, rest: seq<Frame>, x: GoString, log: seq<Attempt>, slot: nat)
    requires BrokerKeepsOrder(read + rest, x, log, slot)
    ensures BrokerKeepsOrder(read, x, log, slot)
  {
    PayloadsForAppend(read, rest, x);
    SubseqOfPrefix(PayloadsFor(read, x), PayloadsFor(rest, x));
    SubseqTransitive(PayloadsFor(read, x), PayloadsFor(read + rest, x), PayloadsOf(log, slot));
  }

  /** The frames read so far are among those that have been sent. */
  lemma PathAccounts(log: seq<Attempt>, n: nat, oks: seq<bool>, slot: nat, all: seq<Frame>, rest: seq<Frame>,
                     read: seq<Frame>, tables: seq<Handlers>, l: Life, arrivals: seq<Arrival>)
    requires 0 < n && Numbered(log, n, oks) && |oks| <= I64
    requires AllFiled(tables) && read + rest == all && |read| == |tables| && HandledFor(tables, l)
    ensures BrokerKeepsOrder(all, Subject(l.feed), log, slot) && ArriveIn(arrivals, read, tables, l)
            ==> Accounted(arrivals)
  {
    if BrokerKeepsOrder(all, Subject(l.feed), log, slot) && ArriveIn(arrivals, read, tables, l) {
      PrefixKeepsOrder(read, rest, Subject(l.feed), log, slot);
      hide Subject, Accounted, Numbered, PayloadsFor, PayloadsOf, Subseq, Payloads, DispatchEach, Received;
      ConservationWhileLive(log, n, oks, slot, read, tables, l.from, l.to, l.feed, arrivals);
    }
  }

  /** What the invariants of the publisher and of the connection contribute. */
  lemma WhatIsKnown(publisher: ClassPublisher, user: UserConn)
    requires publisher.Valid() && user.Valid()
    ensures publisher.symbols != [] && Numbered(publisher.log, |publisher.symbols|, publisher.oks)
    ensures AllFiled(user.sub.tables) && |user.sub.read| == |user.sub.tables|
    ensures user.sub.read + Parse(user.sub.input) == Parse(user.sub.incoming)
  {
    hide Parse, Numbered, DispatchEach, AllFiled, Tries, SlotAfter, UserConn.Valid;
    user.ReadInOrder();
  }

  /** A market goroutine over any number of connections. */
  method OnePublisher(symbols: seq<GoString>, payloadSize: nat, connections: seq<Link>)
    returns (publisher: ClassPublisher)
    requires symbols != [] && MIN_SIZE <= payloadSize
    ensures fresh(publisher) && publisher.Valid() && publisher.symbols == symbols
    ensures Connections(publisher.oks, connections) && publisher.published.value == Wins(publisher.oks)
    ensures Sized(publisher.log, payloadSize)
  {
    hide ClassPublisher.Valid, Connections, Sized;
    var published := new Counter();
    publisher := new ClassPublisher(symbols, payloadSize, published);
    var _ := publisher.Run(connections);
  }

  /** A shard with a single subscription, whose tracker sees these arrivals. */
  method OneSubscription(arrivals: seq<Arrival>) returns (tracker: SeqState)
    ensures fresh(tracker) && fresh(tracker.shard)
    ensures tracker.State() == Track(START, SeqNos(arrivals))
    ensures tracker.received == tracker.shard.rxTotal == |arrivals|
    ensures tracker.shard.gapCount == ToInt64(tracker.gaps) && tracker.shard.dupCount == ToInt64(tracker.dups)
  {
    hide Track, SeqNos, ToInt64;
    var shard := new ShardStats();
    tracker := new SeqState(shard);
    tracker.OnMessages(arrivals);
  }

  /** A life of a subscription lies within what has been read. */
  ghost predicate Within(user: UserConn, l: Life)
    reads user, user.sub, user.subs, user.visibleIdx
  {
    user.Lived(l) && |user.sub.read| == |user.sub.tables| && l.from <= l.to <= |user.sub.read|
  }

  /**
    A publisher runs over any connections with any failures; a user's connection reads any bytes while it
    subscribes, scrolls and answers; a fresh tracker is given the messages that one of the user's subscriptions
    was called with in its life. Whenever the broker keeps the order of that symbol's messages, the
    counters are exact.
   */
  method Observe(symbols: seq<GoString>, payloadSize: nat, connections: seq<Link>, slot: nat,
                 cfg: Config, uid: nat, session: Session, ghost l: Life, arrivals: seq<Arrival>)
    returns (publisher: ClassPublisher, user: UserConn, tracker: SeqState)
    requires slot < |symbols| && symbols[slot] == Subject(l.feed) && MIN_SIZE <= payloadSize
    requires ConfigOK(cfg) && cfg.symbols <= INT_LIMIT && uid < INT_LIMIT
    ensures Connections(publisher.oks, connections) && publisher.published.value == Wins(publisher.oks)
    ensures Sized(publisher.log, payloadSize)
    ensures user.Connected() && user.sub.incoming == session.incoming
    ensures user.Lived(l) ==> Within(user, l)
    ensures tracker.shard.rxTotal == tracker.received == |arrivals|
    ensures |publisher.oks| <= I64 && arrivals != [] && user.Lived(l)
            && BrokerKeepsOrder(Parse(session.incoming), Subject(l.feed), publisher.log, slot)
            && ArriveIn(arrivals, user.sub.read, user.sub.tables, l) ==>
              var ns := SeqNos(arrivals);
              && |ns| == |arrivals|
              && tracker.shard.gapCount == |Missing(ns)| && tracker.shard.dupCount == 0
              && |arrivals| + tracker.shard.gapCount == ns[|ns| - 1] as int - ns[0] as int + 1
  {
    hide Subject, ClassPublisher.Valid, UserConn.Valid, BinarySub.Valid, Connections, Track, SeqNos, Missing, Parse,
         BrokerKeepsOrder, ArriveIn, ToInt64, Accounted, Wins, Numbered, UserConn.Split, Chain, UserConn.Agrees,
         UserConn.Complete, UserConn.Lived, ConfigOK;
    publisher := OnePublisher(symbols, payloadSize, connections);
    user := new UserConn(uid, cfg);
    user.RunSession(session);
    tracker := OneSubscription(arrivals);
    WhatIsKnown(publisher, user);
    if user.Lived(l) {
      user.LivedIsHandled(l);
      if |publisher.oks| <= I64 && arrivals != []
         && BrokerKeepsOrder(Parse(session.incoming), Subject(l.feed), publisher.log, slot)
         && ArriveIn(arrivals, user.sub.read, user.sub.tables, l) {
        PathAccounts(publisher.log, |symbols|, publisher.oks, slot, Parse(session.incoming), Parse(user.sub.input),
                     user.sub.read, user.sub.tables, l, arrivals);
        CountersOf(arrivals, tracker.State());
      }
    }
  }

  lemma CountersOf(arrivals: seq<Arrival>, t: Totals)
    requires t == Track(START, SeqNos(arrivals)) && arrivals != []
    ensures Accounted(arrivals) ==>
              var ns := SeqNos(arrivals);
              && |ns| == |arrivals| && t.dups == 0 && t.gaps == |Missing(ns)|
              && ToInt64(t.gaps) == t.gaps && ToInt64(t.dups) == 0
              && |arrivals| + t.gaps == ns[|ns| - 1] as int - ns[0] as int + 1
  {
    hide SeqNos, Track, Missing;
    if Accounted(arrivals) {
      var ns := SeqNos(arrivals);
      assert ns[|ns| - 1] in ns && ns[0] in ns;
      FitsIff(t.gaps);
      FitsIff(0);
    }
  }

  // ---- Private feeds ----

  /**
    The users who subscribe private feeds are exactly those somebody publishes them for: after a connect without a
    lost Sub a user handles its own two if and only if some account shard publishes to it, however many there are.
   */
  lemma PrivateFeedsPaired<R>(user: UserConn, tiers: seq<Band<R>>, shards: nat)
    requires user.Connected() && user.sub.book.lostSubs == 0
    requires Tiles(tiers, user.cfg.algoUsers) && 0 < shards
    ensures var served := exists s: nat :: s < shards && user.uid in Published(Jobs(tiers, s, shards));
            && (Subject(Orders(user.uid)) in user.sub.handlers <==> served)
            && (Subject(Trades(user.uid)) in user.sub.handlers <==> served)
  {
    hide UserConn.Connected, Subject, Published, Jobs;
    user.PrivateFeeds();
    PublishedIff(tiers, user.cfg.algoUsers, shards, user.uid);
  }

  // ---- A broker that passes everything on ----

  /** The payloads of the attempts on one slot that succeeded. */
  function SentOn(log: seq<Attempt>, slot: nat): seq<seq<byte>> {
    if log == [] then []
    else
      var front, a := SentOn(log[..|log| - 1], slot), log[|log| - 1];
      if a.slot == slot && a.ok then front + [a.payload] else front
  }

  /**
    What the publisher puts on the wire for a symbol is exactly the messages of its successful attempts, which
    are among all its attempts: so a broker that loses nothing is one of those the law above speaks of.
   */
  lemma {:induction false} WireCarriesSuccesses(symbols: seq<GoString>, log: seq<Attempt>, slot: nat)
    requires slot < |symbols| && forall i, j :: 0 <= i < j < |symbols| ==> symbols[i] != symbols[j]
    requires forall a <- log :: a.slot < |symbols|
    ensures PayloadsFor(SentFrames(symbols, log), symbols[slot]) == SentOn(log, slot)
    ensures Subseq(SentOn(log, slot), PayloadsOf(log, slot))
  {
    if log != [] {
      var front, a := log[..|log| - 1], log[|log| - 1];
      assert a in log && forall b <- front :: b in log;
      WireCarriesSuccesses(symbols, front, slot);
      if a.ok {
        var f := MsgFrame(symbols[a.slot], a.payload);
        PayloadsForAppend(SentFrames(symbols, front), [f], symbols[slot]);
        assert PayloadsFor([f], symbols[slot]) == if a.slot == slot then [a.payload] else [] by {
          assert [f][1..] == [];
        }
      }
      if a.slot == slot {
        assert PayloadsOf(log, slot)[..|PayloadsOf(log, slot)| - 1] == PayloadsOf(front, slot);
        if a.ok {
          assert SentOn(log, slot)[..|SentOn(log, slot)| - 1] == SentOn(front, slot);
        }
      }
    }
  }
}
