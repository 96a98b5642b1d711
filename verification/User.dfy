/** One user's connection: its visible slots, scrolled in place, and the subscriptions that follow them. */
module User {
  import opened Broker
  import opened Bytes
  import opened Encoders
  import opened Frames
  import opened Linking
  import opened Sampling
  import opened Seqs
  import opened Subjects
  import opened Transport
  import opened Visibility
  import opened Wrappers

  /** What can happen to an open connection: the scroll timer, or the read loop taking one step. */
  datatype Event = Scroll(stopped: bool) | Receive

  /**
    A connection's life: the bytes the broker will send on it, which writes succeed, and what happens until it is
    lost or drained.
   */
  datatype Session = Session(incoming: seq<byte>, net: Net, events: seq<Event>)

  /** The number of swaps one scroll makes. */
  function Swaps(cfg: Config): nat {
    if VisibleCount(cfg) == cfg.symbols || cfg.scrollCount < 0 then 0 else Min(cfg.scrollCount, VisibleCount(cfg))
  }

  /** The scrolls that happen among these events: none after stop. */
  function Scrolls(events: seq<Event>): nat {
    if events == [] then 0
    else Scrolls(events[..|events| - 1]) + if events[|events| - 1] == Scroll(false) then 1 else 0
  }

  /** The steps the read loop takes among these events. */
  function Receives(events: seq<Event>): nat {
    if events == [] then 0
    else Receives(events[..|events| - 1]) + if events[|events| - 1].Receive? then 1 else 0
  }

  /** The swaps these events make. */
  function SwapsOf(cfg: Config, events: seq<Event>): nat {
    if events == [] then 0
    else SwapsOf(cfg, events[..|events| - 1]) + if events[|events| - 1] == Scroll(false) then Swaps(cfg) else 0
  }

  /** The scrolls, and the swaps, of a number of connections. */
  function AllScrolls(sessions: seq<Session>): nat {
    if sessions == [] then 0 else AllScrolls(sessions[..|sessions| - 1]) + Scrolls(sessions[|sessions| - 1].events)
  }

  function AllSwaps(cfg: Config, sessions: seq<Session>): nat {
    if sessions == [] then 0
    else AllSwaps(cfg, sessions[..|sessions| - 1]) + SwapsOf(cfg, sessions[|sessions| - 1].events)
  }

  /** The counts are those of the events themselves, and every scroll makes the same number of swaps. */
  lemma {:induction false} EventCounts(cfg: Config, events: seq<Event>)
    ensures Scrolls(events) == multiset(events)[Scroll(false)] && Receives(events) == multiset(events)[Receive]
    ensures SwapsOf(cfg, events) == Scrolls(events) * Swaps(cfg)
  {
    if events != [] {
      var front, e := events[..|events| - 1], events[|events| - 1];
      EventCounts(cfg, front);
      assert events == front + [e];
      assert (Scrolls(front) + 1) * Swaps(cfg) == Scrolls(front) * Swaps(cfg) + Swaps(cfg);
    }
  }

  /** Over any number of connections they are those of all their events together. */
  lemma {:induction false} RunCounts(cfg: Config, sessions: seq<Session>)
    ensures AllScrolls(sessions) == multiset(AllEvents(sessions))[Scroll(false)]
    ensures AllSwaps(cfg, sessions) == AllScrolls(sessions) * Swaps(cfg)
  {
    if sessions != [] {
      var front, events := sessions[..|sessions| - 1], sessions[|sessions| - 1].events;
      RunCounts(cfg, front);
      EventCounts(cfg, events);
      Spread(AllScrolls(front), Scrolls(events), Swaps(cfg));
    }
  }

  function AllEvents(sessions: seq<Session>): seq<Event> {
    if sessions == [] then [] else AllEvents(sessions[..|sessions| - 1]) + sessions[|sessions| - 1].events
  }

  lemma Spread(a: nat, b: nat, c: nat)
    ensures (a + b) * c == a * c + b * c
  {
  }

  class UserConn {
    const uid: nat
    const cfg: Config
    var visibleIdx: array<nat>
    var notVisible: array<nat>
    var subs: array<Option<Handle>>
    var sub: BinarySub
    var scrollEvents: nat
    /** When each slot was last subscribed on this connection, and the subscriptions it has cancelled. */
    ghost var since: seq<nat>
    ghost var lives: seq<Life>

    ghost predicate Algo() {
      uid < cfg.algoUsers
    }

    /** The number of Subscribe calls a connection has seen after these events. */
    ghost function Issued(events: seq<Event>): nat {
      VisibleCount(cfg) + (if Algo() then 2 else 0) + SwapsOf(cfg, events)
    }

    /** The visible and the not-visible symbols. */
    ghost function Split(): Sides
      reads this`visibleIdx, this`notVisible, visibleIdx, notVisible
    {
      Sides(visibleIdx[..], notVisible[..])
    }

    /**
      The symbols are split and the slots are linked. Until the SID counter wraps the connection is regular, and
      then the SIDs nobody will drop are exactly those whose Unsub could not be written.
     */
    ghost predicate Valid()
      reads this`visibleIdx, this`notVisible, this`subs, this`sub, this`since, this`lives,
            visibleIdx, notVisible, subs, sub
    {
      && ConfigOK(cfg) && cfg.symbols <= INT_LIMIT && uid < INT_LIMIT
      && visibleIdx != notVisible
      && Splits(visibleIdx[..], notVisible[..], cfg.symbols) && visibleIdx.Length == VisibleCount(cfg)
      && subs.Length == |since| == visibleIdx.Length
      && sub.Valid() && AllFiled(sub.tables)
      && Linked(visibleIdx[..], subs[..], sub.handlers, sub.book, uid, Algo())
      && Booked(sub.book)
      && Lives(visibleIdx[..], subs[..], since, lives, sub.tables)
    }

    /** Everything wanted has been asked for: what is missing is missing because a Sub could not be written. */
    ghost predicate Connected()
      reads this`visibleIdx, this`notVisible, this`subs, this`sub, this`since, this`lives,
            visibleIdx, notVisible, subs, sub
    {
      Valid() && (sub.book.lostSubs == 0 ==> AllLive(subs[..]) && PrivateLive())
    }

    /** The private feeds an algo user is without. */
    ghost function LostPrivate(): nat
      reads this`sub, sub
    {
      if uid < cfg.algoUsers then Unhandled(sub.handlers, Orders(uid)) + Unhandled(sub.handlers, Trades(uid)) else 0
    }

    ghost predicate PrivateLive()
      reads this`sub, sub
    {
      PrivateHandled(sub.handlers, uid, Algo())
    }

    /**
      Replaying the bytes written on the connection gives the broker a table with one SID for each wanted
      subject and no others, and the handler table has exactly the same subjects.
     */
    ghost predicate Agrees()
      reads this`visibleIdx, this`sub, visibleIdx, sub
    {
      && Exact(WireTable(sub.out), Wanted(visibleIdx[..], uid, Algo()))
      && sub.handlers.Keys == Wanted(visibleIdx[..], uid, Algo())
    }

    /** What a user can see of its connection: no Unsub failed, no slot is empty, and the private feeds are there. */
    ghost predicate Complete()
      reads this`subs, this`sub, subs, sub
    {
      sub.book.lostUnsubs == 0 && AllLive(subs[..]) && PrivateLive()
    }

    /**
      As long as no Sub was written with a SID still bound, the wire agrees with the slots if and only if no Unsub
      was lost and everything wanted is subscribed at the moment. A lost Unsub is never made good on its
      connection; a lost Sub is as soon as its slot is given another symbol.
     */
    lemma AgreesIff()
      requires Valid() && sub.book.regular
      ensures Agrees() <==> Complete()
    {
      hide Linked, Splits, Exact, Wanted, Ledger, Subject;
      CompleteIff(visibleIdx[..], subs[..], sub.handlers, sub.book, uid, Algo());
      sub.ExactIff();
      NoneLost(sub.book);
    }

    /**
      So it agrees whenever all writes but those of Pongs have succeeded, and in particular if all have. The SIDs are
      free until 2^32 subscribes have been made.
     */
    lemma AgreesIfWritten()
      requires Connected()
      ensures sub.book.lostSubs + sub.book.lostUnsubs + sub.lostPongs == Failures(sub.net, sub.writes)
      ensures sub.book.issued <= SID_LIMIT ==> sub.book.regular
      ensures sub.book.regular && Failures(sub.net, sub.writes) == sub.lostPongs ==> Agrees()
      ensures (forall k :: 0 <= k < sub.writes ==> sub.net(k)) ==> Failures(sub.net, sub.writes) == sub.lostPongs == 0
    {
      hide Linked, Splits, Exact, Wanted, Ledger, Subject, WireOK, History, Agrees;
      NoFailuresIff(sub.net, sub.writes);
      if sub.book.regular {
        AgreesIff();
      }
    }

    /** No private feed of another user is ever handled, and its own only if the user is among the algo users. */
    lemma PrivateHandlers(u: nat)
      requires Valid()
      ensures Subject(Orders(u)) in sub.handlers || Subject(Trades(u)) in sub.handlers ==> u == uid < cfg.algoUsers
    {
      hide Linked, Splits, Subject, BinarySub.Valid, ConfigOK, Booked, AllFiled, Lives;
      if Subject(Orders(u)) in sub.handlers {
        WhoseHandler(visibleIdx[..], subs[..], sub.handlers, sub.book, uid, Algo(), Orders(u));
      }
      if Subject(Trades(u)) in sub.handlers {
        WhoseHandler(visibleIdx[..], subs[..], sub.handlers, sub.book, uid, Algo(), Trades(u));
      }
    }

    /** Unless a Sub was lost, the feeds with a handler are exactly the visible symbols and an algo user's own two. */
    lemma HandledFeeds(feed: Feed)
      requires Connected() && sub.book.lostSubs == 0
      ensures Subject(feed) in sub.handlers
              <==> match feed
                   case Market(v) => v in visibleIdx[..]
                   case Orders(u) => u == uid < cfg.algoUsers
                   case Trades(u) => u == uid < cfg.algoUsers
    {
      hide Linked, Splits, Subject, BinarySub.Valid, ConfigOK, Booked, AllFiled, Lives;
      if Subject(feed) in sub.handlers {
        WhoseHandler(visibleIdx[..], subs[..], sub.handlers, sub.book, uid, Algo(), feed);
      }
      LiveIsHandled(visibleIdx[..], subs[..], sub.handlers, sub.book, uid, Algo());
    }

    /** The two private feeds are handled if and only if the user is among the algo users. */
    ghost predicate PrivateIffAlgo()
      reads this`sub, sub
    {
      && (Subject(Orders(uid)) in sub.handlers <==> uid < cfg.algoUsers)
      && (Subject(Trades(uid)) in sub.handlers <==> uid < cfg.algoUsers)
    }

    lemma PrivateFeeds()
      requires Connected()
      ensures sub.book.lostSubs == 0 ==> PrivateIffAlgo()
    {
      hide UserConn.Valid, Subject;
      if sub.book.lostSubs == 0 {
        HandledFeeds(Orders(uid));
        HandledFeeds(Trades(uid));
      }
    }

    /** A subscription of this connection: one that has been cancelled, or that of a live slot until now. */
    ghost predicate Lived(l: Life)
      reads this`visibleIdx, this`subs, this`sub, this`since, this`lives, visibleIdx, subs, sub
    {
      || l in lives
      || exists s :: 0 <= s < subs.Length && subs[s].Some? && visibleIdx.Length == |since| == subs.Length
                     && l == Life(Market(visibleIdx[s]), since[s], |sub.tables|)
    }

    /** From when it was written until it was cancelled, a subscription's handler was there for every frame read. */
    lemma LivedIsHandled(l: Life)
      requires Valid() && Lived(l)
      ensures HandledFor(sub.tables, l)
    {
      hide Linked, Splits, Subject, BinarySub.Valid, ConfigOK, Booked, AllFiled, HandledFor;
      if l !in lives {
        var s :| 0 <= s < subs.Length && subs[s].Some? && l == Life(Market(visibleIdx[s]), since[s], |sub.tables|);
        assert subs[..][s].Some? && visibleIdx[..][s] == visibleIdx[s];
      }
    }

    constructor (uid: nat, cfg: Config)
      requires ConfigOK(cfg) && cfg.symbols <= INT_LIMIT && uid < INT_LIMIT
      ensures Valid() && this.uid == uid && this.cfg == cfg && scrollEvents == 0
      ensures fresh(visibleIdx) && fresh(notVisible) && fresh(subs) && fresh(sub) && fresh(sub.body)
      ensures var screen := cfg.screens[uid % |cfg.screens|];
              && screen.start <= screen.end
              && (exists shuffle, draws :: Chosen(cfg, screen, visibleIdx[..], notVisible[..], shuffle, draws))
              && forall i :: 0 <= i < ScreenCount(cfg, screen) ==> screen.start <= visibleIdx[i] < screen.end
      ensures forall i, j :: 0 <= i < j < notVisible.Length ==> notVisible[i] < notVisible[j]
    {
      hide Subject, BinarySub.Valid, Replay, ConfigOK, Lives, WireOK, History, Counted, ScreenCount, Chosen;
      var visible, rest, shuffle, draws := BuildVisible(cfg, uid);
      this.uid, this.cfg, scrollEvents := uid, cfg, 0;
      visibleIdx := new nat[|visible|](i requires 0 <= i < |visible| => visible[i]);
      notVisible := new nat[|rest|](i requires 0 <= i < |rest| => rest[i]);
      subs := new Option<Handle>[|visible|](_ => None);
      sub := new BinarySub([], _ => false);
      since, lives := seq(|visible|, _ => 0), [];
      new;
      NoLives(visibleIdx[..], subs[..], since);
      assert visibleIdx[..] == visible && notVisible[..] == rest;
    }

    /** It is still the same connection; the read loop may have gone on. */
    twostate predicate SameConnection()
      reads this`sub, sub
    {
      && sub == old(sub) && (sub.body == old(sub.body) || fresh(sub.body)) && old(sub.steps) <= sub.steps
    }

    /** The read loop runs beside everything else: between two subscription changes it may take any number of steps. */
    method Interlude(n: nat)
      requires Valid()
      modifies sub`input, sub`body, sub`delivered, sub`out, sub`writes, sub`sent, sub`lostPongs,
               sub`steps, sub`read, sub`tables, sub.body
      ensures Valid() && SameConnection() && sub.Subscriptions() == old(sub.Subscriptions())
      ensures sub.steps == old(sub.steps) + n
    {
      hide Linked, Splits, Subject, BinarySub.Valid, Replay, ConfigOK, Booked, Filed, Lives;
      LinkedIsFiled(visibleIdx[..], subs[..], sub.handlers, sub.book, uid, Algo());
      var i := 0;
      while i < n
        invariant 0 <= i <= n && Valid() && SameConnection() && sub.Subscriptions() == old(sub.Subscriptions())
        invariant sub.steps == old(sub.steps) + i
      {
        Receive();
        i := i + 1;
      }
    }

    /** Frames are read in the order they come, each with handlers that are filed under their own subjects. */
    lemma ReadInOrder()
      requires Valid()
      ensures AllFiled(sub.tables) && |sub.read| == |sub.tables|
      ensures sub.read + Parse(sub.input) == Parse(sub.incoming)
      ensures sub.delivered == DispatchEach(sub.read, sub.tables)
    {
      hide Parse, Linked, WireOK, DispatchEach, Splits, Booked, AllFiled;
    }

    /** One step of the read loop. */
    method Receive()
      requires Valid()
      modifies sub`input, sub`body, sub`delivered, sub`out, sub`writes, sub`sent, sub`lostPongs,
               sub`steps, sub`read, sub`tables, sub.body
      ensures Valid() && (sub.body == old(sub.body) || fresh(sub.body)) && sub.steps == old(sub.steps) + 1
      ensures sub.Subscriptions() == old(sub.Subscriptions())
    {
      hide Linked, Splits, Subject, BinarySub.Valid, Replay, ConfigOK, Booked, Filed, Dispatch, First, Rest,
           HasFrame, PongStep, Lives;
      LinkedIsFiled(visibleIdx[..], subs[..], sub.handlers, sub.book, uid, Algo());
      LiveIsHandled(visibleIdx[..], subs[..], sub.handlers, sub.book, uid, Algo());
      LivesRead(visibleIdx[..], subs[..], since, lives, sub.tables, sub.handlers);
      var _ := sub.ReadOne();
    }

    /** subMarket on a slot without a live handle: subscribes the slot's symbol and files the handle. */
    method SubscribeSlot(slot: nat)
      requires Valid() && slot < subs.Length && subs[slot].None?
      modifies this`since, subs, sub, sub.body
      ensures Valid() && SameConnection()
      ensures slot < |old(since)| && since == old(since)[slot := |sub.tables|]
      ensures sub.book.issued == old(sub.book.issued) + 1
      ensures sub.book.lostSubs == old(sub.book.lostSubs) + if subs[slot].Some? then 0 else 1
      ensures sub.book.lostUnsubs == old(sub.book.lostUnsubs) && slot < visibleIdx.Length
      ensures var feed := Market(visibleIdx[slot]);
              sub.handlers == if subs[slot].Some? then old(sub.handlers)[Subject(feed) := feed] else old(sub.handlers)
      ensures forall s :: 0 <= s < subs.Length && s != slot ==> subs[s] == old(subs[s])
    {
      hide Linked, Splits, Subject, BinarySub.Valid, Replay, ConfigOK, Booked, AllFiled, HandledFor;
      var pause: nat := *;
      Interlude(pause);
      var h := SubMarket(slot);
      LifeBegins(visibleIdx[..], subs[..], since, lives, sub.tables, slot, h);
      since := since[slot := |sub.tables|];
      assert subs[..][slot := subs[slot]] == subs[..];
      subs[slot] := h;
      assert subs[..] == old(subs[..])[slot := h];
    }

    method SubMarket(slot: nat) returns (h: Option<Handle>)
      requires Valid() && slot < subs.Length && subs[slot].None?
      modifies sub`nextSID, sub`handlers, sub`out, sub`writes, sub`sent, sub`book
      ensures sub.Valid() && Booked(sub.book)
      ensures sub.book.issued == old(sub.book.issued) + 1
      ensures sub.book.lostSubs == old(sub.book.lostSubs) + if h.Some? then 0 else 1
      ensures sub.book.lostUnsubs == old(sub.book.lostUnsubs) && slot < visibleIdx.Length
      ensures var feed := Market(visibleIdx[slot]);
              sub.handlers == if h.Some? then old(sub.handlers)[Subject(feed) := feed] else old(sub.handlers)
      ensures Linked(visibleIdx[..], subs[..][slot := h], sub.handlers, sub.book, uid, Algo())
    {
      assert visibleIdx[slot] in visibleIdx[..];
      SIDNow();
      hide Linked, Splits, Subject, BinarySub.Valid, Replay, ConfigOK, Booked, AllFiled, NthSID, Lives;
      ghost var handlers0, table0, book0 := sub.handlers, sub.Subscriptions(), sub.book;
      var feed := Market(visibleIdx[slot]);
      SubjectFits(feed);
      EmptySlotHasNoHandler(visibleIdx[..], subs[..], handlers0, book0, uid, Algo(), slot);
      NotThere(handlers0, Subject(feed));
      h := sub.Subscribe(Subject(feed), feed);
      LinkedAdd(visibleIdx[..], subs[..], handlers0, book0, uid, Algo(), slot, table0, h.Some?);
      BookedSubscribe(book0, table0, Subject(feed), h.Some?);
      assert subs[..][slot := None] == subs[..];
    }

    /** The next SID is free, and a subject without a handler owns none, until the counter wraps. */
    lemma SIDNow()
      requires Valid()
      ensures sub.nextSID == NthSID(sub.book.issued)
      ensures sub.book.issued < SID_LIMIT ==> NthSID(sub.book.issued) !in sub.Subscriptions()
      ensures sub.book.regular ==> sub.book.owner.Keys == sub.handlers.Keys
    {
      if sub.book.issued < SID_LIMIT {
        sub.NextIsFresh();
      }
    }

    /** Subscribes one of the two private feeds; its handle is not kept. */
    method SubscribePrivate(feed: Feed)
      requires Valid() && Algo() && (feed == Orders(uid) || feed == Trades(uid))
      requires Subject(feed) !in sub.handlers
      modifies sub`nextSID, sub`handlers, sub`out, sub`writes, sub`sent, sub`book
      ensures Valid()
      ensures sub.book.issued == old(sub.book.issued) + 1
      ensures sub.handlers == old(sub.handlers)[Subject(feed) := feed] || sub.handlers == old(sub.handlers)
      ensures sub.book.lostSubs == old(sub.book.lostSubs) + Unhandled(sub.handlers, feed)
      ensures sub.book.lostUnsubs == old(sub.book.lostUnsubs)
    {
      SIDNow();
      hide Linked, Splits, Subject, BinarySub.Valid, Replay, ConfigOK, Booked, AllFiled, NthSID, Lives;
      SubjectFits(feed);
      ghost var handlers0, table0, book0 := sub.handlers, sub.Subscriptions(), sub.book;
      NotThere(handlers0, Subject(feed));
      var h := sub.Subscribe(Subject(feed), feed);
      LinkedPrivate(visibleIdx[..], subs[..], handlers0, book0, uid, feed, table0, h.Some?);
      BookedSubscribe(book0, table0, Subject(feed), h.Some?);
    }

    /** A new connection: nothing carries over but the visible slots. */
    method Dial(incoming: seq<byte>, net: Net)
      requires Valid()
      modifies this`subs, this`sub, this`since, this`lives
      ensures lives == []
      ensures Valid() && fresh(subs) && fresh(sub) && fresh(sub.body)
      ensures sub.book == NEW_BOOK && sub.handlers == map[] && forall s :: 0 <= s < subs.Length ==> subs[s].None?
      ensures sub.incoming == incoming && sub.net == net
    {
      hide Splits, Subject, BinarySub.Valid, Replay, ConfigOK, Lives;
      sub := new BinarySub(incoming, net);
      subs := new Option<Handle>[visibleIdx.Length](_ => None);
      since, lives := seq(visibleIdx.Length, _ => 0), [];
      NoLives(visibleIdx[..], subs[..], since);
    }

    /** An algo user's two private feeds. */
    method ConnectPrivate()
      requires Valid() && sub.handlers == map[]
      modifies sub, sub.body
      ensures Valid() && SameConnection() && sub.book.lostUnsubs == old(sub.book.lostUnsubs)
      ensures sub.book.issued == old(sub.book.issued) + if uid < cfg.algoUsers then 2 else 0
      ensures sub.book.lostSubs == old(sub.book.lostSubs) + LostPrivate()
    {
      hide Linked, Splits, Subject, BinarySub.Valid, Replay, ConfigOK, Booked, AllFiled;
      if uid < cfg.algoUsers {
        var pause: nat := *;
        Interlude(pause);
        OwnFeedsDiffer();
        SubscribePrivate(Orders(uid));
        pause := *;
        Interlude(pause);
        SubscribePrivate(Trades(uid));
      }
    }

    lemma OwnFeedsDiffer()
      ensures Subject(Trades(uid)) != Subject(Orders(uid))
    {
      hide Subject;
      if Subject(Trades(uid)) == Subject(Orders(uid)) {
        SubjectInjective(Trades(uid), Orders(uid));
      }
    }

    /** Dials and subscribes everything wanted, while frames already come in. */
    method Connect(incoming: seq<byte>, net: Net)
      requires Valid()
      modifies this`subs, this`sub, this`since, this`lives
      ensures Connected() && fresh(subs) && fresh(sub) && fresh(sub.body)
      ensures sub.book.issued == VisibleCount(cfg) + if uid < cfg.algoUsers then 2 else 0
      ensures sub.book.lostSubs == Empty(subs[..]) + LostPrivate()
      ensures sub.incoming == incoming && sub.net == net
    {
      hide UserConn.Valid, Subject, BinarySub.Valid, AllLive;
      Dial(incoming, net);
      ConnectPrivate();
      Sizes();
      var slot := 0;
      while slot < visibleIdx.Length
        invariant 0 <= slot <= visibleIdx.Length && Valid()
        invariant fresh(subs) && fresh(sub) && fresh(sub.body) && sub.incoming == incoming && sub.net == net
        invariant subs.Length == visibleIdx.Length
        invariant sub.book.lostSubs == Empty(subs[..slot]) + LostPrivate()
        invariant forall s :: slot <= s < subs.Length ==> subs[s].None?
        invariant sub.book.issued == slot + (if uid < cfg.algoUsers then 2 else 0)
      {
        ghost var subs0 := subs[..];
        PrivateIsNotMarket(visibleIdx[slot]);
        SubscribeSlot(slot);
        EmptyStep(subs[..], slot);
        assert subs[..][..slot] == subs0[..slot];
        slot := slot + 1;
      }
      assert subs[..] == subs[..slot];
      NoneEmptyIff(subs[..]);
    }

    /** Finds newIdx in the not-visible pool and puts oldIdx in its place. */
    method ReplaceInPool(newIdx: nat, oldIdx: nat) returns (ghost at: nat)
      requires newIdx in notVisible[..]
      modifies notVisible
      ensures at < notVisible.Length && old(notVisible[at]) == newIdx
      ensures notVisible[..] == old(notVisible[..])[at := oldIdx]
    {
      var j := 0;
      while j < notVisible.Length && notVisible[j] != newIdx
        invariant 0 <= j <= notVisible.Length && newIdx !in notVisible[..j]
      {
        j := j + 1;
      }
      at := j;
      notVisible[j] := oldIdx;
    }

    /** The subscription half of a swap: cancel the slot's handle, if any, and forget it. */
    method Withdraw(slot: nat)
      requires Valid() && slot < subs.Length
      modifies this`lives, subs, sub, sub.body
      ensures slot < visibleIdx.Length == |since|
      ensures lives == if old(subs[slot]).None? then old(lives)
                       else old(lives) + [Life(Market(visibleIdx[slot]), since[slot], |sub.tables|)]
      ensures Valid() && SameConnection()
      ensures subs[..] == old(subs[..])[slot := None]
      ensures sub.book.issued == old(sub.book.issued) && sub.book.lostSubs == old(sub.book.lostSubs)
      ensures old(sub.book.lostUnsubs) <= sub.book.lostUnsubs
              <= old(sub.book.lostUnsubs) + if old(subs[slot]).Some? then 1 else 0
      ensures sub.handlers
              == if old(subs[slot]).Some? then old(sub.handlers) - {old(subs[slot]).value.subject}
                 else old(sub.handlers)
      ensures old(PrivateLive()) ==> PrivateLive()
    {
      hide UserConn.Valid, BinarySub.Valid, Subject;
      Sizes();
      var pause: nat := *;
      Interlude(pause);
      if subs[slot].Some? {
        SlotHandle(slot);
        PrivateIsNotMarket(visibleIdx[slot]);
        Cancel(slot);
      }
      assert subs[..] == old(subs[..])[slot := None];
    }

    method Cancel(slot: nat)
      requires Valid() && slot < subs.Length && subs[slot].Some?
      modifies this`lives, subs, sub`handlers, sub`out, sub`writes, sub`sent, sub`book
      ensures slot < visibleIdx.Length == |since|
      ensures lives == old(lives) + [Life(Market(visibleIdx[slot]), since[slot], |sub.tables|)]
      ensures Valid()
      ensures subs[..] == old(subs[..])[slot := None]
      ensures sub.book.issued == old(sub.book.issued) && sub.book.lostSubs == old(sub.book.lostSubs)
      ensures old(sub.book.lostUnsubs) <= sub.book.lostUnsubs <= old(sub.book.lostUnsubs) + 1
      ensures sub.handlers == old(sub.handlers) - {old(subs[slot]).value.subject}
    {
      hide Splits, Subject, BinarySub.Valid, Replay, ConfigOK, Booked, AllFiled, Linked, Holds, Unsubscribed,
           UnsubFrame, Lives;
      SlotHandle(slot);
      ghost var subs0, handlers0, book0 := subs[..], sub.handlers, sub.book;
      var h := subs[slot].value;
      var ok := sub.Unsubscribe(h);
      LinkedDrop(visibleIdx[..], subs0, handlers0, book0, uid, Algo(), slot, ok);
      LifeEnds(visibleIdx[..], subs0, since, lives, sub.tables, slot);
      lives := lives + [Life(Market(visibleIdx[slot]), since[slot], |sub.tables|)];
      BookedUnsubscribe(book0, h, ok);
      subs[slot] := None;
      assert subs[..] == old(subs[..])[slot := None];
    }

    lemma Sizes()
      requires Valid()
      ensures subs.Length == |since| == visibleIdx.Length == VisibleCount(cfg)
    {
    }

    lemma SlotHandle(slot: nat)
      requires Valid() && slot < subs.Length && subs[slot].Some?
      ensures slot < visibleIdx.Length && subs[slot].value.sid < SID_LIMIT
      ensures subs[slot].value.subject == Subject(Market(visibleIdx[slot]))
      ensures sub.book.regular ==> Holds(sub.book.owner, subs[slot].value)
    {
      hide Splits, Subject, Holds;
    }

    lemma PrivateIsNotMarket(v: nat)
      ensures Subject(Orders(uid)) != Subject(Market(v)) && Subject(Trades(uid)) != Subject(Market(v))
    {
      hide Subject;
      if Subject(Orders(uid)) == Subject(Market(v)) {
        SubjectInjective(Orders(uid), Market(v));
      }
      if Subject(Trades(uid)) == Subject(Market(v)) {
        SubjectInjective(Trades(uid), Market(v));
      }
    }

    /** One swap: a not-visible symbol takes over a slot, and the slot's subscription follows it. */
    method Swap(slot: nat, newIdx: nat)
      requires Connected() && slot < visibleIdx.Length && newIdx in notVisible[..]
      modifies this`since, this`lives, visibleIdx, notVisible, subs, sub, sub.body
      ensures Connected() && SameConnection()
      ensures visibleIdx[..] == old(visibleIdx[..])[slot := newIdx]
      ensures Exchanged(old(Split()), Split())
      ensures sub.book.issued == old(sub.book.issued) + 1
      ensures forall s :: 0 <= s < subs.Length && s != slot ==> subs[s] == old(subs[s])
      ensures old(sub.book.lostSubs) <= sub.book.lostSubs && old(sub.book.lostUnsubs) <= sub.book.lostUnsubs
    {
      hide Subject, BinarySub.Valid, Replay, Linked, Booked, AllFiled, PrivateLive, HandledFor;
      ghost var visible, rest := visibleIdx[..], notVisible[..];
      var oldIdx := visibleIdx[slot];
      Withdraw(slot);
      LinkedRetarget(visible, subs[..], sub.handlers, sub.book, uid, Algo(), slot, newIdx);
      EmptySlotHasNoLife(visible, subs[..], since, lives, sub.tables, slot, newIdx);
      ghost var j := ReplaceInPool(newIdx, oldIdx);
      visibleIdx[slot] := newIdx;
      ExchangeKeepsSplit(visible, rest, cfg.symbols, slot, j);
      SubscribeAgain(slot);
    }

    /** Subscribing an emptied slot, with what was live besides it still live. */
    method SubscribeAgain(slot: nat)
      requires Valid() && slot < subs.Length && subs[slot].None?
      requires sub.book.lostSubs == 0 ==>
                 PrivateLive() && forall s :: 0 <= s < subs.Length && s != slot ==> subs[s].Some?
      modifies this`since, subs, sub, sub.body
      ensures Connected() && SameConnection()
      ensures sub.book.issued == old(sub.book.issued) + 1
      ensures forall s :: 0 <= s < subs.Length && s != slot ==> subs[s] == old(subs[s])
      ensures old(sub.book.lostSubs) <= sub.book.lostSubs && old(sub.book.lostUnsubs) <= sub.book.lostUnsubs
    {
      hide UserConn.Valid, BinarySub.Valid, Subject;
      SubscribeSlot(slot);
    }

    /** One Zipf-weighted pick from the symbols that are not visible; there is one unless all are visible. */
    method PickNew() returns (picked: Option<nat>)
      requires Valid()
      ensures picked.Some? <==> notVisible.Length > 0
      ensures picked.Some? ==> picked.value in notVisible[..]
    {
      var pool := notVisible[..];
      assert forall x <- pool :: x < cfg.symbols;
      var picks, _ := Sample(cfg.zipf, pool, 1);
      if |picks| == 0 {
        return None;
      }
      assert picks[0] in picks;
      return Some(picks[0]);
    }

    /** Round i of the scroll loop; it only fails to swap when there is nothing to show. */
    method ScrollOnce(ghost start: Sides, ghost i: nat) returns (swapped: bool)
      requires Connected() && visibleIdx.Length > 0 && Chain(start, Split(), i)
      modifies this`since, this`lives, visibleIdx, notVisible, subs, sub, sub.body
      ensures Connected() && SameConnection()
      ensures swapped == (notVisible.Length > 0)
      ensures sub.book.issued == old(sub.book.issued) + if swapped then 1 else 0
      ensures old(sub.book.lostSubs) <= sub.book.lostSubs && old(sub.book.lostUnsubs) <= sub.book.lostUnsubs
      ensures Chain(start, Split(), if swapped then i + 1 else i)
    {
      hide Linked, Subject, BinarySub.Valid, Replay, Exchanged, Chain, ConfigOK, PrivateLive, AllLive, Splits,
           Booked, AllFiled;
      if notVisible.Length == 0 {
        return false;
      }
      var newIdx := PickNew();
      if newIdx.None? {
        return false;
      }
      var slot: nat :| slot < visibleIdx.Length;
      ghost var before := Split();
      Swap(slot, newIdx.value);
      ChainStep(start, before, i, Split());
      return true;
    }

    /**
      With nothing left to show, or nothing asked for, no swap is made; otherwise as many as asked for and possible.
     */
    lemma SwapsMade()
      requires Connected()
      ensures Swaps(cfg)
              == if notVisible.Length == 0 || cfg.scrollCount < 0 then 0 else Min(cfg.scrollCount, visibleIdx.Length)
    {
      SplitLengths(visibleIdx[..], notVisible[..], cfg.symbols);
    }

    /** scrollSub: a fixed number of swaps with arbitrary draws, fewer only when nothing is left to show. */
    method ScrollSub()
      requires Connected()
      modifies this`since, this`lives, visibleIdx, notVisible, subs, sub, sub.body
      ensures Connected() && SameConnection()
      ensures sub.book.issued == old(sub.book.issued) + Swaps(cfg)
      ensures Chain(old(Split()), Split(), Swaps(cfg))
    {
      hide UserConn.Valid, Connected, BinarySub.Valid, Chain, PrivateLive, AllLive, Split, Swaps, VisibleCount;
      SwapsMade();
      ghost var start := Split();
      ChainStart(start);
      var count := cfg.scrollCount;
      if count > visibleIdx.Length {
        count := visibleIdx.Length;
      }
      var i := 0;
      while i < count
        invariant 0 <= i && (i <= count || i == 0) && Connected() && SameConnection()
        invariant Chain(start, Split(), i)
        invariant sub.book.issued == old(sub.book.issued) + i && (notVisible.Length == 0 ==> i == 0)
      {
        var swapped := ScrollOnce(start, i);
        if !swapped {
          break;
        }
        i := i + 1;
      }
    }

    /** One event on an open connection. */
    method Handle(event: Event)
      requires Connected()
      modifies this`scrollEvents, this`since, this`lives, visibleIdx, notVisible, subs, sub, sub.body
      ensures Connected() && SameConnection()
      ensures scrollEvents == old(scrollEvents) + if event == Scroll(false) then 1 else 0
      ensures sub.book.issued == old(sub.book.issued) + if event == Scroll(false) then Swaps(cfg) else 0
      ensures Chain(old(Split()), Split(), if event == Scroll(false) then Swaps(cfg) else 0)
      ensures old(sub.steps) + (if event.Receive? then 1 else 0) <= sub.steps
    {
      hide UserConn.Valid, BinarySub.Valid, Replay, Chain, Swaps;
      ChainStart(Split());
      match event
      case Scroll(stopped) =>
        if !stopped {
          ScrollSub();
          scrollEvents := scrollEvents + 1;
        }
      case Receive =>
        Receive();
    }

    /**
      One connection from dial to loss. Along the way the visible and not-visible symbols exchange places,
      and every frame that is read is delivered to the handlers of that moment, as the connection's own
      history says.
     */
    method RunSession(session: Session)
      requires Valid()
      modifies this`subs, this`sub, this`scrollEvents, this`since, this`lives, visibleIdx, notVisible
      ensures Connected() && fresh(subs) && fresh(sub) && fresh(sub.body)
      ensures sub.book.issued == Issued(session.events)
      ensures sub.book.lostSubs + sub.book.lostUnsubs + sub.lostPongs == Failures(session.net, sub.writes)
      ensures sub.book.issued <= SID_LIMIT ==> sub.book.regular
      ensures sub.book.lostSubs == 0 ==> PrivateIffAlgo()
      ensures sub.book.regular ==> (Agrees() <==> Complete())
      ensures sub.book.regular && Failures(sub.net, sub.writes) == sub.lostPongs ==> Agrees()
      ensures sub.book.regular && (forall k :: 0 <= k < sub.writes ==> sub.net(k)) ==> Agrees()
      ensures scrollEvents == old(scrollEvents) + Scrolls(session.events)
      ensures Chain(old(Split()), Split(), SwapsOf(cfg, session.events))
      ensures sub.incoming == session.incoming && sub.net == session.net && Receives(session.events) <= sub.steps
    {
      hide BinarySub.Valid, Replay, Split, Chain, Agrees, Complete, PrivateLive, AllLive, Swaps,
           UserConn.Valid, VisibleCount, PrivateIffAlgo;
      ChainStart(Split());
      Connect(session.incoming, session.net);
      var i := 0;
      while i < |session.events|
        invariant 0 <= i <= |session.events| && Connected() && fresh(subs) && fresh(sub) && fresh(sub.body)
        invariant sub.book.issued == Issued(session.events[..i])
        invariant scrollEvents == old(scrollEvents) + Scrolls(session.events[..i])
        invariant Chain(old(Split()), Split(), SwapsOf(cfg, session.events[..i]))
        invariant sub.incoming == session.incoming && sub.net == session.net
        invariant Receives(session.events[..i]) <= sub.steps
      {
        assert session.events[..i + 1][..i] == session.events[..i];
        ghost var before, m, n := Split(), SwapsOf(cfg, session.events[..i]), SwapsOf(cfg, session.events[..i + 1]);
        Handle(session.events[i]);
        ChainJoins(old(Split()), before, m, Split(), n - m);
        i := i + 1;
      }
      assert session.events[..i] == session.events;
      PrivateFeeds();
      AgreesIfWritten();
      if sub.book.regular {
        AgreesIff();
      }
    }

    /**
      Agreement on the current connection: exactly when nothing is missing, and so whenever the session's net has let
      every write pass, or at least every one but those of Pongs.
     */
    ghost predicate Agreed(session: Session)
      reads this`visibleIdx, this`subs, this`sub, visibleIdx, subs, sub
    {
      && sub.net == session.net
      && sub.book.lostSubs + sub.book.lostUnsubs + sub.lostPongs == Failures(session.net, sub.writes)
      && (Issued(session.events) <= SID_LIMIT ==> sub.book.regular)
      && (sub.book.lostSubs == 0 ==> PrivateIffAlgo())
      && (sub.book.regular ==> (Agrees() <==> Complete()))
      && (sub.book.regular && Failures(session.net, sub.writes) == sub.lostPongs ==> Agrees())
      && (sub.book.regular && (forall k :: 0 <= k < sub.writes ==> session.net(k)) ==> Agrees())
    }

    /**
      The reconnect loop over any sequence of connections. Sessions and their events are arbitrary, so
      this speaks of every moment of every run: on the current connection, until its SID counter wraps, the
      wire agrees exactly with the visible slots if and only if no Unsub was lost and everything wanted is
      subscribed, which it is unless a Sub was lost. The slots have reached their present state from the
      initial one by exactly the swaps of all scrolls on all connections.
     */
    method Run(sessions: seq<Session>)
      requires Valid()
      modifies this`subs, this`sub, this`scrollEvents, this`since, this`lives, visibleIdx, notVisible
      ensures Valid()
      ensures sessions != [] ==> Connected()
      ensures sessions != [] ==> Agreed(sessions[|sessions| - 1])
      ensures scrollEvents == old(scrollEvents) + AllScrolls(sessions)
      ensures Chain(old(Split()), Split(), AllSwaps(cfg, sessions))
    {
      hide BinarySub.Valid, Replay, Split, Chain, Agrees, Complete, Issued, SwapsOf, Scrolls, PrivateLive, AllLive,
           Swaps, UserConn.Valid, PrivateIffAlgo;
      ChainStart(Split());
      var i := 0;
      while i < |sessions|
        invariant 0 <= i <= |sessions| && Valid()
        invariant i > 0 ==> Connected()
        invariant i > 0 ==> Agreed(sessions[i - 1])
        invariant scrollEvents == old(scrollEvents) + AllScrolls(sessions[..i])
        invariant Chain(old(Split()), Split(), AllSwaps(cfg, sessions[..i]))
      {
        assert sessions[..i + 1][..i] == sessions[..i];
        ghost var before := Split();
        RunSession(sessions[i]);
        ChainJoins(old(Split()), before, AllSwaps(cfg, sessions[..i]), Split(), SwapsOf(cfg, sessions[i].events));
        i := i + 1;
      }
      assert sessions[..i] == sessions;
    }
  }

  ghost predicate AllFiled(tables: seq<Handlers>) {
    forall t <- tables :: Filed(t)
  }

  /** Until the SID counter wraps the book is regular, and then there is an orphan for each Unsub that was lost. */
  ghost predicate Booked(b: Book) {
    && (b.issued <= SID_LIMIT ==> b.regular)
    && (b.regular ==> |b.orphans| == b.lostUnsubs)
  }

  lemma NoneLost(b: Book)
    requires Booked(b) && b.regular
    ensures b.orphans == {} <==> b.lostUnsubs == 0
  {
  }

  lemma BookedSubscribe(b: Book, table: Table, x: GoString, ok: bool)
    requires Booked(b) && (b.issued < SID_LIMIT ==> NthSID(b.issued) !in table)
    requires |x| < 0x1_0000 && (b.regular ==> x !in b.owner)
    ensures Booked(Subscribed(b, table, x, ok))
  {
  }

  lemma BookedUnsubscribe(b: Book, h: Handle, ok: bool)
    requires Booked(b) && (b.regular ==> Holds(b.owner, h) && h.sid !in b.orphans)
    ensures var c := Unsubscribed(b, h, ok);
            && Booked(c) && c.issued == b.issued && c.lostSubs == b.lostSubs
            && b.lostUnsubs <= c.lostUnsubs <= b.lostUnsubs + 1
  {
  }
}
