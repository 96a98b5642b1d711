/** How a user's visible slots, subscription handles, handler table and SIDs fit together. */
module Linking {
  import opened Broker
  import opened Bytes
  import opened Seqs
  import opened Subjects
  import opened Transport
  import opened Wrappers

  type Slots = seq<Option<Handle>>

  /** The subjects a user wants: its visible symbols, plus its two private feeds if it is an algo user. */
  ghost function Wanted(visible: seq<nat>, uid: nat, algo: bool): set<GoString>
  {
    (set v | v in visible :: Subject(Market(v))) + if algo then {Subject(Orders(uid)), Subject(Trades(uid))} else {}
  }

  /** A handler belongs to its own subject, and to a live slot or to the user's own private feeds. */
  ghost predicate Belongs(x: GoString, feed: Feed, visible: seq<nat>, subs: Slots, uid: nat, algo: bool)
    requires |subs| == |visible|
  {
    && x == Subject(feed)
    && match feed
       case Market(v) => v in visible && forall s :: 0 <= s < |visible| && visible[s] == v ==> subs[s].Some?
       case Orders(u) => algo && u == uid
       case Trades(u) => algo && u == uid
  }

  /** Live slots have their handler and, on a regular connection, its SID; and there are no other handlers. */
  ghost predicate Linked(visible: seq<nat>, subs: Slots, handlers: Handlers, book: Book, uid: nat, algo: bool) {
    && |subs| == |visible| && NoDup(visible)
    && (forall x <- handlers :: Belongs(x, handlers[x], visible, subs, uid, algo))
    && (forall s :: 0 <= s < |visible| && subs[s].Some? ==>
          && subs[s].value.subject == Subject(Market(visible[s]))
          && subs[s].value.subject in handlers
          && subs[s].value.sid < SID_LIMIT
          && (book.regular ==> Holds(book.owner, subs[s].value)))
  }

  ghost predicate AllLive(subs: Slots) {
    forall s :: 0 <= s < |subs| ==> subs[s].Some?
  }

  lemma OtherSubjects(visible: seq<nat>, subs: Slots, handlers: Handlers, book: Book, uid: nat, algo: bool,
                      s: nat, t: nat)
    requires Linked(visible, subs, handlers, book, uid, algo)
    requires s < |subs| && t < |subs| && s != t && subs[s].Some? && subs[t].Some?
    ensures subs[s].value.subject != subs[t].value.subject
  {
    hide Subject;
    if subs[s].value.subject == subs[t].value.subject {
      SubjectInjective(Market(visible[s]), Market(visible[t]));
    }
  }

  /** A slot's handler is withdrawn and its SID cancelled; the write may fail, which leaves the SID behind. */
  lemma LinkedDrop(visible: seq<nat>, subs: Slots, handlers: Handlers, book: Book, uid: nat, algo: bool,
                   slot: nat, ok: bool)
    requires Linked(visible, subs, handlers, book, uid, algo)
    requires slot < |subs| && subs[slot].Some?
    ensures var h := subs[slot].value;
            Linked(visible, subs[slot := None], handlers - {h.subject}, Unsubscribed(book, h, ok), uid, algo)
  {
    hide Subject;
    var h := subs[slot].value;
    var subs', handlers' := subs[slot := None], handlers - {h.subject};
    forall x <- handlers' ensures Belongs(x, handlers'[x], visible, subs', uid, algo) {
      assert Belongs(x, handlers[x], visible, subs, uid, algo);
    }
    forall s | 0 <= s < |visible| && subs'[s].Some? ensures subs'[s].value.subject != h.subject {
      OtherSubjects(visible, subs, handlers, book, uid, algo, s, slot);
    }
  }

  /** An empty slot is pointed at a symbol that is not visible. */
  lemma LinkedRetarget(visible: seq<nat>, subs: Slots, handlers: Handlers, book: Book, uid: nat, algo: bool,
                       slot: nat, v: nat)
    requires Linked(visible, subs, handlers, book, uid, algo)
    requires slot < |subs| && subs[slot].None? && v !in visible
    ensures Linked(visible[slot := v], subs, handlers, book, uid, algo)
  {
    hide Subject, Holds;
    var visible' := visible[slot := v];
    ReplaceMembers(visible, slot, v);
    forall x <- handlers ensures Belongs(x, handlers[x], visible', subs, uid, algo) {
      assert Belongs(x, handlers[x], visible, subs, uid, algo);
      assert handlers[x].Market? ==> handlers[x].sym != visible[slot];
    }
  }

  /** The subject of a visible symbol whose slot is empty has no handler. */
  lemma EmptySlotHasNoHandler(visible: seq<nat>, subs: Slots, handlers: Handlers, book: Book, uid: nat, algo: bool,
                              slot: nat)
    requires Linked(visible, subs, handlers, book, uid, algo)
    requires slot < |subs| && subs[slot].None?
    ensures Subject(Market(visible[slot])) !in handlers
  {
    hide Subject;
    var x := Subject(Market(visible[slot]));
    if x in handlers {
      assert Belongs(x, handlers[x], visible, subs, uid, algo);
      SubjectInjective(handlers[x], Market(visible[slot]));
    }
  }

  /** An empty slot is subscribed; the write may fail, which leaves it empty. */
  lemma LinkedAdd(visible: seq<nat>, subs: Slots, handlers: Handlers, book: Book, uid: nat, algo: bool,
                  slot: nat, table: Table, ok: bool)
    requires Linked(visible, subs, handlers, book, uid, algo)
    requires slot < |subs| && subs[slot].None?
    ensures var v := visible[slot];
            var x, sid := Subject(Market(v)), NthSID(book.issued);
            Linked(visible, if ok then subs[slot := Some(Handle(sid, x))] else subs,
                   if ok then handlers[x := Market(v)] else handlers - {x}, Subscribed(book, table, x, ok), uid, algo)
  {
    NextSID(book.issued);
    hide Subject, NthSID, Orphaned;
    var v := visible[slot];
    var x, sid := Subject(Market(v)), NthSID(book.issued);
    EmptySlotHasNoHandler(visible, subs, handlers, book, uid, algo, slot);
    assert handlers - {x} == handlers;
    if ok {
      var subs', handlers' := subs[slot := Some(Handle(sid, x))], handlers[x := Market(v)];
      forall y <- handlers' ensures Belongs(y, handlers'[y], visible, subs', uid, algo) {
        if y != x {
          assert Belongs(y, handlers[y], visible, subs, uid, algo);
        }
      }
    }
  }

  /** A private feed is subscribed while all slots are as they were. */
  lemma LinkedPrivate(visible: seq<nat>, subs: Slots, handlers: Handlers, book: Book, uid: nat,
                      feed: Feed, table: Table, ok: bool)
    requires Linked(visible, subs, handlers, book, uid, true)
    requires feed == Orders(uid) || feed == Trades(uid)
    ensures var x := Subject(feed);
            Linked(visible, subs, if ok then handlers[x := feed] else handlers - {x},
                   Subscribed(book, table, x, ok), uid, true)
  {
    hide Subject, NthSID, Orphaned;
    var x := Subject(feed);
    var handlers' := if ok then handlers[x := feed] else handlers - {x};
    forall y <- handlers' ensures Belongs(y, handlers'[y], visible, subs, uid, true) {
      if y != x {
        assert Belongs(y, handlers[y], visible, subs, uid, true);
      }
    }
    forall s | 0 <= s < |visible| && subs[s].Some? ensures subs[s].value.subject != x {
      if subs[s].value.subject == x {
        SubjectInjective(Market(visible[s]), feed);
      }
    }
  }

  /** An algo user's two private feeds have handlers. */
  ghost predicate PrivateHandled(handlers: Handlers, uid: nat, algo: bool) {
    algo ==> Subject(Orders(uid)) in handlers && Subject(Trades(uid)) in handlers
  }

  /** The handlers are exactly those wanted if and only if every slot is live and the private feeds are there. */
  lemma CompleteIff(visible: seq<nat>, subs: Slots, handlers: Handlers, book: Book, uid: nat, algo: bool)
    requires Linked(visible, subs, handlers, book, uid, algo)
    ensures handlers.Keys == Wanted(visible, uid, algo) <==> AllLive(subs) && PrivateHandled(handlers, uid, algo)
  {
    hide Subject;
    HandlersAreWanted(visible, subs, handlers, book, uid, algo);
    var wanted := Wanted(visible, uid, algo);
    if AllLive(subs) && PrivateHandled(handlers, uid, algo) {
      forall x <- wanted ensures x in handlers {
        if v :| v in visible && x == Subject(Market(v)) {
          var s :| 0 <= s < |visible| && visible[s] == v;
          assert subs[s].value.subject == x;
        }
      }
    } else if s :| 0 <= s < |subs| && subs[s].None? {
      EmptySlotHasNoHandler(visible, subs, handlers, book, uid, algo, s);
      assert visible[s] in visible && Subject(Market(visible[s])) in wanted;
    }
  }

  /** Even after failed writes, nothing unwanted is ever handled. */
  lemma HandlersAreWanted(visible: seq<nat>, subs: Slots, handlers: Handlers, book: Book, uid: nat, algo: bool)
    requires Linked(visible, subs, handlers, book, uid, algo)
    ensures handlers.Keys <= Wanted(visible, uid, algo)
  {
    hide Subject;
    forall x <- handlers ensures x in Wanted(visible, uid, algo) {
      assert Belongs(x, handlers[x], visible, subs, uid, algo);
    }
  }

  /** A feed has a handler only if it is that of a live slot, or the user's own and the user an algo user. */
  lemma WhoseHandler(visible: seq<nat>, subs: Slots, handlers: Handlers, book: Book, uid: nat, algo: bool, feed: Feed)
    requires Linked(visible, subs, handlers, book, uid, algo) && Subject(feed) in handlers
    ensures match feed
            case Market(v) => v in visible && forall s :: 0 <= s < |visible| && visible[s] == v ==> subs[s].Some?
            case Orders(u) => u == uid && algo
            case Trades(u) => u == uid && algo
  {
    hide Subject;
    assert Belongs(Subject(feed), handlers[Subject(feed)], visible, subs, uid, algo);
    SubjectInjective(feed, handlers[Subject(feed)]);
  }

  /** The slots without a subscription. */
  function Empty(subs: Slots): nat {
    if subs == [] then 0 else Empty(subs[..|subs| - 1]) + if subs[|subs| - 1].None? then 1 else 0
  }

  lemma EmptyStep(subs: Slots, slot: nat)
    requires slot < |subs|
    ensures Empty(subs[..slot + 1]) == Empty(subs[..slot]) + if subs[slot].None? then 1 else 0
    ensures Empty(subs[..0]) == 0
  {
    assert subs[..slot + 1][..slot] == subs[..slot];
  }

  lemma {:induction false} NoneEmptyIff(subs: Slots)
    ensures Empty(subs) == 0 <==> AllLive(subs)
  {
    if subs != [] {
      NoneEmptyIff(subs[..|subs| - 1]);
    }
  }

  lemma NotThere(handlers: Handlers, x: GoString)
    ensures x !in handlers ==> handlers - {x} == handlers
  {
  }

  /** One for a feed that has no handler. */
  function Unhandled(handlers: Handlers, feed: Feed): nat {
    if Subject(feed) in handlers then 0 else 1
  }

  lemma LiveIsHandled(visible: seq<nat>, subs: Slots, handlers: Handlers, book: Book, uid: nat, algo: bool)
    requires Linked(visible, subs, handlers, book, uid, algo)
    ensures forall s :: 0 <= s < |subs| && subs[s].Some? ==> Subject(Market(visible[s])) in handlers
  {
    hide Subject;
  }

  /** Every handler is filed under the subject of its own feed. */
  lemma LinkedIsFiled(visible: seq<nat>, subs: Slots, handlers: Handlers, book: Book, uid: nat, algo: bool)
    requires Linked(visible, subs, handlers, book, uid, algo)
    ensures Filed(handlers)
  {
    hide Subject;
    forall x <- handlers ensures x == Subject(handlers[x]) {
      assert Belongs(x, handlers[x], visible, subs, uid, algo);
    }
  }

  // ---- The life of a subscription ----

  /** A market subscription was live while the frames from one reading to another were read. */
  datatype Life = Life(feed: Feed, from: nat, to: nat)

  /** The subject had a handler whenever a frame was read in that stretch. */
  ghost predicate HandledFor(tables: seq<Handlers>, l: Life) {
    && l.from <= l.to <= |tables|
    && forall k :: l.from <= k < l.to ==> Subject(l.feed) in tables[k]
  }

  /** The lives that have ended, and those of the live slots from when they were subscribed until now. */
  ghost predicate Lives(visible: seq<nat>, subs: Slots, since: seq<nat>, lives: seq<Life>, tables: seq<Handlers>) {
    && |visible| == |subs| == |since|
    && (forall s :: 0 <= s < |subs| && subs[s].Some? ==>
          HandledFor(tables, Life(Market(visible[s]), since[s], |tables|)))
    && (forall l <- lives :: HandledFor(tables, l))
  }

  lemma NoLives(visible: seq<nat>, subs: Slots, since: seq<nat>)
    requires |visible| == |subs| == |since| && forall s :: 0 <= s < |subs| ==> subs[s].None?
    ensures Lives(visible, subs, since, [], [])
  {
  }

  lemma LivesRead(visible: seq<nat>, subs: Slots, since: seq<nat>, lives: seq<Life>,
                  tables: seq<Handlers>, handlers: Handlers)
    requires Lives(visible, subs, since, lives, tables)
    requires forall s :: 0 <= s < |subs| && subs[s].Some? ==> Subject(Market(visible[s])) in handlers
    ensures Lives(visible, subs, since, lives, tables + [handlers])
  {
    hide Subject;
    var tables' := tables + [handlers];
    forall s | 0 <= s < |subs| && subs[s].Some?
      ensures HandledFor(tables', Life(Market(visible[s]), since[s], |tables'|))
    {
      assert HandledFor(tables, Life(Market(visible[s]), since[s], |tables|));
    }
    forall l <- lives ensures HandledFor(tables', l) {
      assert HandledFor(tables, l);
    }
  }

  lemma LifeBegins(visible: seq<nat>, subs: Slots, since: seq<nat>, lives: seq<Life>, tables: seq<Handlers>,
                   slot: nat, h: Option<Handle>)
    requires Lives(visible, subs, since, lives, tables) && slot < |subs|
    ensures Lives(visible, subs[slot := h], since[slot := |tables|], lives, tables)
  {
    hide Subject;
    forall s | 0 <= s < |subs| && s != slot && subs[s].Some?
      ensures HandledFor(tables, Life(Market(visible[s]), since[s], |tables|))
    {
    }
  }

  lemma LifeEnds(visible: seq<nat>, subs: Slots, since: seq<nat>, lives: seq<Life>, tables: seq<Handlers>, slot: nat)
    requires Lives(visible, subs, since, lives, tables) && slot < |subs| && subs[slot].Some?
    ensures Lives(visible, subs[slot := None], since, lives + [Life(Market(visible[slot]), since[slot], |tables|)],
                  tables)
  {
    hide HandledFor;
  }

  lemma EmptySlotHasNoLife(visible: seq<nat>, subs: Slots, since: seq<nat>, lives: seq<Life>, tables: seq<Handlers>,
                           slot: nat, v: nat)
    requires Lives(visible, subs, since, lives, tables) && slot < |subs| && subs[slot].None?
    ensures Lives(visible[slot := v], subs, since, lives, tables)
  {
    hide HandledFor;
  }
}
