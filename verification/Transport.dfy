/** The subscriber end of a binary connection: its handler table, its SID counter and its read loop. */
module Transport {
  import opened Bytes
  import opened Broker
  import opened Encoders
  import opened Frames
  import opened Subjects
  import opened Wrappers

  /** One callback: the handler that ran and the payload it was given. */
  datatype Delivery = Delivery(feed: Feed, payload: seq<byte>)

  /** What Subscribe returns: enough to cancel the subscription later. */
  datatype Handle = Handle(sid: nat, subject: GoString)

  type Handlers = map<GoString, Feed>

  predicate IsMessage(f: Frame) {
    f.op == OP_MSG || f.op == OP_HMSG
  }

  /** The callbacks one frame causes: at most one, that of the exact subject. */
  function Dispatch(f: Frame, handlers: Handlers): seq<Delivery> {
    if IsMessage(f) && f.subject in handlers then [Delivery(handlers[f.subject], f.payload)] else []
  }

  function DispatchAll(fs: seq<Frame>, handlers: Handlers): seq<Delivery> {
    if fs == [] then [] else Dispatch(fs[0], handlers) + DispatchAll(fs[1..], handlers)
  }

  /** The callbacks of frames that were read at different times, each with the handlers of its time. */
  function DispatchEach(fs: seq<Frame>, tables: seq<Handlers>): seq<Delivery>
    requires |fs| == |tables|
  {
    if fs == [] then []
    else DispatchEach(fs[..|fs| - 1], tables[..|fs| - 1]) + Dispatch(fs[|fs| - 1], tables[|fs| - 1])
  }

  /** The Pings among some frames, each of which is answered with a Pong. */
  function Pings(fs: seq<Frame>): nat {
    if fs == [] then 0 else Pings(fs[..|fs| - 1]) + if fs[|fs| - 1].op == OP_PING then 1 else 0
  }

  function Pongs(n: nat): (fs: seq<Frame>)
    ensures |fs| == n && forall f <- fs :: f == PONG_FRAME
  {
    if n == 0 then [] else Pongs(n - 1) + [PONG_FRAME]
  }

  /** Which frames the read loop acts on: 3 and 4 are messages, 1 is a Ping, and nothing else has an effect. */
  lemma ByOpCode(f: Frame, handlers: Handlers)
    ensures Dispatch(f, handlers) != [] <==> f.op in {3, 4} && f.subject in handlers
    ensures Dispatch(f, handlers) != [] ==> Dispatch(f, handlers) == [Delivery(handlers[f.subject], f.payload)]
    ensures Pings([f]) == 1 <==> f.op == 1
    ensures Pings([f]) <= 1
  {
    PingsSnoc([], f);
    assert [] + [f] == [f];
  }

  lemma PingsSnoc(fs: seq<Frame>, f: Frame)
    ensures Pings(fs + [f]) == Pings(fs) + if f.op == OP_PING then 1 else 0
  {
    assert (fs + [f])[..|fs|] == fs;
  }

  lemma {:induction false} PongsAppend(m: nat, n: nat)
    ensures Pongs(m + n) == Pongs(m) + Pongs(n)
  {
    if n == 0 {
    } else {
      PongsAppend(m, n - 1);
    }
  }

  /** Of n Pongs to be sent, all but the lost ones follow what had been sent before. */
  ghost predicate Answered(before: seq<Frame>, sent: seq<Frame>, lost: int, n: nat) {
    0 <= lost <= n && sent == before + Pongs(n - lost)
  }

  lemma AnsweredJoins(before: seq<Frame>, middle: seq<Frame>, l: int, m: nat, sent: seq<Frame>, k: int, n: nat)
    requires Answered(before, middle, l, m) && Answered(middle, sent, k, n)
    ensures Answered(before, sent, l + k, m + n)
  {
    PongsAppend(m - l, n - k);
    Assoc(before, Pongs(m - l), Pongs(n - k));
  }

  /** Each handler is filed under its own feed's subject. */
  predicate Filed(handlers: Handlers) {
    forall x <- handlers :: x == Subject(handlers[x])
  }

  /**
    The first n whole frames of the incoming bytes have been read, or all there are, each with the handlers
    of its time; the rest is still to come, and the callbacks were those of these frames and handlers.
   */
  ghost predicate History(incoming: seq<byte>, n: nat, read: seq<Frame>, tables: seq<Handlers>,
                          input: seq<byte>, delivered: seq<Delivery>) {
    && |read| == |tables| == (if n < |Parse(incoming)| then n else |Parse(incoming)|)
    && read + Parse(input) == Parse(incoming)
    && delivered == DispatchEach(read, tables)
  }

  lemma HistoryStart(incoming: seq<byte>)
    ensures History(incoming, 0, [], [], incoming, [])
  {
  }

  lemma HistoryStep(incoming: seq<byte>, n: nat, read: seq<Frame>, tables: seq<Handlers>,
                    input: seq<byte>, delivered: seq<Delivery>, handlers: Handlers)
    requires History(incoming, n, read, tables, input, delivered)
    ensures HasFrame(input) ==>
              History(incoming, n + 1, read + [First(input)], tables + [handlers], Rest(input),
                      delivered + Dispatch(First(input), handlers))
    ensures !HasFrame(input) ==> History(incoming, n + 1, read, tables, [], delivered)
  {
    hide Dispatch, DispatchEach, Parse, HasFrame, First, Rest;
    ParseOnce(input);
    ParseOnce([]);
    if HasFrame(input) {
      DispatchEachSnoc(read, tables, First(input), handlers);
      Assoc(read, [First(input)], Parse(Rest(input)));
    }
  }

  // ---- Bookkeeping of subscriptions ----

  /**
    What has happened to the subscriptions of a connection: how many subscribes there were and how many Sub and
    Unsub frames could not be written, the SID each handled subject owns, and the SIDs nobody will drop. It is
    regular if no Sub was written with a SID still bound or a subject too long for its header, and no
    handle was cancelled that was not its subject's latest.
   */
  datatype Book = Book(issued: nat, lostSubs: nat, lostUnsubs: nat, owner: Owners, orphans: set<nat>, regular: bool)

  const NEW_BOOK := Book(0, 0, 0, map[], {}, true)

  /** A subscribe that was written, or not, to a broker with the given table. */
  ghost function Subscribed(b: Book, table: Table, x: GoString, ok: bool): Book {
    var sid := NthSID(b.issued);
    Book(b.issued + 1, if ok then b.lostSubs else b.lostSubs + 1, b.lostUnsubs,
         if ok then b.owner[x := sid] else b.owner - {x}, Orphaned(b.owner, b.orphans, x),
         b.regular && (ok ==> sid !in table && |x| < 0x1_0000))
  }

  /** An unsubscribe that was written, or not. */
  ghost function Unsubscribed(b: Book, h: Handle, ok: bool): Book {
    Book(b.issued, b.lostSubs, if ok then b.lostUnsubs else b.lostUnsubs + 1,
         b.owner - {h.subject}, if ok then b.orphans else b.orphans + {h.sid},
         b.regular && Holds(b.owner, h))
  }

  /** Every write that failed was a Sub, an Unsub or a Pong, and is booked as such. */
  ghost predicate Counted(b: Book, lostPongs: nat, net: Net, writes: nat) {
    b.lostSubs + b.lostUnsubs + lostPongs == Failures(net, writes)
  }

  lemma NothingWritten(net: Net, handlers: Handlers)
    requires handlers == map[]
    ensures WireOK([], [], 1, handlers.Keys, NEW_BOOK) && Counted(NEW_BOOK, 0, net, 0)
  {
  }

  lemma CountedSubscribe(b: Book, lostPongs: nat, net: Net, writes: nat, table: Table, x: GoString)
    requires Counted(b, lostPongs, net, writes)
    ensures Counted(Subscribed(b, table, x, net(writes)), lostPongs, net, writes + 1)
  {
    hide Orphaned;
  }

  lemma CountedUnsubscribe(b: Book, lostPongs: nat, net: Net, writes: nat, h: Handle)
    requires Counted(b, lostPongs, net, writes)
    ensures Counted(Unsubscribed(b, h, net(writes)), lostPongs, net, writes + 1)
  {
  }

  /** What a frame does to the writes: a Ping is answered with a Pong, unless its write fails. */
  ghost predicate PongStep(ping: bool, net: Net, sent: seq<Frame>, lost: nat, writes: nat,
                           sent': seq<Frame>, lost': nat, writes': nat) {
    if !ping then sent' == sent && lost' == lost && writes' == writes
    else if net(writes) then sent' == sent + [PONG_FRAME] && lost' == lost && writes' == writes + 1
    else sent' == sent && lost' == lost + 1 && writes' == writes + 1
  }

  lemma CountedPong(b: Book, ping: bool, net: Net, sent: seq<Frame>, lost: nat, writes: nat,
                    sent': seq<Frame>, lost': nat, writes': nat)
    requires PongStep(ping, net, sent, lost, writes, sent', lost', writes') && Counted(b, lost, net, writes)
    ensures Counted(b, lost', net, writes')
  {
  }

  lemma NoPing(net: Net, sent: seq<Frame>, lost: nat, writes: nat)
    ensures PongStep(false, net, sent, lost, writes, sent, lost, writes)
  {
  }

  lemma NoPingMeans(net: Net, sent: seq<Frame>, lost: nat, writes: nat, sent': seq<Frame>, lost': nat, writes': nat)
    requires PongStep(false, net, sent, lost, writes, sent', lost', writes')
    ensures sent' == sent && lost' == lost && writes' == writes
  {
  }

  lemma AnsweredStep(ping: bool, net: Net, sent: seq<Frame>, lost: nat, writes: nat,
                     sent': seq<Frame>, lost': nat, writes': nat)
    requires PongStep(ping, net, sent, lost, writes, sent', lost', writes')
    ensures Answered(sent, sent', lost' - lost, if ping then 1 else 0)
  {
    assert Pongs(0) == [] && Pongs(1) == [PONG_FRAME];
  }

  /** The handle is the latest of its subject. */
  predicate Holds(owner: Owners, h: Handle) {
    h.subject in owner && owner[h.subject] == h.sid
  }

  /** SIDs in use were issued here. */
  ghost predicate IssuedHere(table: Table, issued: nat) {
    issued < SID_LIMIT ==> forall sid <- table :: 1 <= sid <= issued
  }

  /** The bytes written, the frames they stand for, the SID counter, the handled subjects and the book agree. */
  ghost predicate WireOK(out: seq<byte>, sent: seq<Frame>, nextSID: nat, handled: set<GoString>, b: Book) {
    && out == EncodeAll(sent)
    && nextSID == NthSID(b.issued) && IssuedHere(Replay(sent), b.issued)
    && (b.regular ==> AllInRange(sent) && b.owner.Keys == handled && Ledger(Replay(sent), b.owner, b.orphans))
  }

  /**
    What a subscribe does to the ledger: a written one gives the subject its SID, provided that SID is free;
    an unwritten one withdraws the handler. A SID the subject had before is orphaned in both cases, so for a new
    subject the table stays as exact as it was, written or not.
   */
  lemma LedgerAfterSubscribe(table: Table, b: Book, x: GoString, ok: bool)
    requires Ledger(table, b.owner, b.orphans)
    ensures var c := Subscribed(b, table, x, ok);
            c.regular ==> Ledger(if ok then table[NthSID(b.issued) := x] else table, c.owner, c.orphans)
  {
    if !ok {
      LedgerWithdraw(table, b.owner, b.orphans, x);
    } else if NthSID(b.issued) !in table {
      LedgerSubscribe(table, b.owner, b.orphans, NthSID(b.issued), x);
    }
  }

  /** What an unsubscribe does to the ledger: if it is not written, the SID is orphaned. */
  lemma LedgerAfterUnsubscribe(table: Table, b: Book, h: Handle, ok: bool)
    requires Ledger(table, b.owner, b.orphans) && Holds(b.owner, h)
    ensures var c := Unsubscribed(b, h, ok); Ledger(if ok then table - {h.sid} else table, c.owner, c.orphans)
    ensures h.sid !in b.orphans
  {
    if ok {
      LedgerUnsubscribe(table, b.owner, b.orphans, h.subject);
    } else {
      LedgerWithdraw(table, b.owner, b.orphans, h.subject);
    }
  }

  lemma StillIssuedHere(table: Table, issued: nat, x: GoString)
    requires IssuedHere(table, issued)
    ensures IssuedHere(table, issued + 1) && IssuedHere(table[NthSID(issued) := x], issued + 1)
  {
    NextSID(issued);
  }

  lemma WireAfterSub(out: seq<byte>, sent: seq<Frame>, sid: nat, handled: set<GoString>, b: Book, x: GoString)
    requires WireOK(out, sent, sid, handled, b)
    ensures sid < SID_LIMIT && Replay(sent + [SubFrame(x, sid)]) == Replay(sent)[sid := x]
    ensures var f := SubFrame(x, sid);
            WireOK(out + Encode(f), sent + [f], (sid + 1) % SID_LIMIT, handled + {x},
                   Subscribed(b, Replay(sent), x, true))
  {
    hide Ledger, IssuedHere, Replay, EncodeAll, Encode, Orphaned, NthSID, SubFrame, AllInRange;
    NextSID(b.issued);
    InRangeSnoc(sent, SubFrame(x, sid));
    SubInRange(x, sid);
    StillIssuedHere(Replay(sent), b.issued, x);
    if b.regular {
      LedgerAfterSubscribe(Replay(sent), b, x, true);
    }
    SubMeaning(sent, x, sid);
    EncodeAllSnoc(sent, SubFrame(x, sid));
  }

  lemma WireAfterLostSub(out: seq<byte>, sent: seq<Frame>, sid: nat, handled: set<GoString>, b: Book, x: GoString)
    requires WireOK(out, sent, sid, handled, b)
    ensures WireOK(out, sent, (sid + 1) % SID_LIMIT, handled - {x}, Subscribed(b, Replay(sent), x, false))
  {
    hide Ledger, IssuedHere, Replay, EncodeAll, Orphaned, NthSID, AllInRange;
    NextSID(b.issued);
    StillIssuedHere(Replay(sent), b.issued, x);
    if b.regular {
      LedgerAfterSubscribe(Replay(sent), b, x, false);
    }
  }

  lemma WireAfterUnsubscribe(out: seq<byte>, sent: seq<Frame>, next: nat, handled: set<GoString>, b: Book, h: Handle)
    requires WireOK(out, sent, next, handled, b) && h.sid < SID_LIMIT
    ensures Replay(sent + [UnsubFrame(h.sid)]) == Replay(sent) - {h.sid}
    ensures var f := UnsubFrame(h.sid);
            && WireOK(out + Encode(f), sent + [f], next, handled - {h.subject}, Unsubscribed(b, h, true))
            && WireOK(out, sent, next, handled - {h.subject}, Unsubscribed(b, h, false))
    ensures b.regular && Holds(b.owner, h) ==> h.sid !in b.orphans
  {
    hide Ledger, Replay, EncodeAll, Encode, NthSID, UnsubFrame, AllInRange;
    InRangeSnoc(sent, UnsubFrame(h.sid));
    UnsubInRange(h.sid);
    if IssuedHere(Replay(sent), b.issued) {
      assert IssuedHere(Replay(sent) - {h.sid}, b.issued);
    }
    hide IssuedHere;
    if b.regular && Holds(b.owner, h) {
      LedgerAfterUnsubscribe(Replay(sent), b, h, true);
      LedgerAfterUnsubscribe(Replay(sent), b, h, false);
    }
    UnsubMeaning(sent, h.sid);
    EncodeAllSnoc(sent, UnsubFrame(h.sid));
  }

  lemma InRangeSnoc(fs: seq<Frame>, f: Frame)
    ensures AllInRange(fs) && InRange(f) ==> AllInRange(fs + [f])
  {
  }

  lemma SubInRange(subject: GoString, sid: nat)
    ensures |subject| < 0x1_0000 ==> InRange(SubFrame(subject, sid))
  {
  }

  lemma UnsubInRange(sid: nat)
    ensures InRange(UnsubFrame(sid))
  {
  }

  lemma WireAfterPong(out: seq<byte>, sent: seq<Frame>, next: nat, handled: set<GoString>, b: Book)
    requires WireOK(out, sent, next, handled, b)
    ensures Replay(sent + [PONG_FRAME]) == Replay(sent)
    ensures WireOK(out + Encode(PONG_FRAME), sent + [PONG_FRAME], next, handled, b)
  {
    ReplaySnoc(sent, PONG_FRAME);
    EncodeAllSnoc(sent, PONG_FRAME);
    hide Ledger, Replay, EncodeAll, Encode, NthSID;
  }

  /** io.ReadFull of n bytes into body[..n]; on a short stream everything left is lost and it fails. */
  method ReadBody(input: seq<byte>, body: array<byte>, n: nat) returns (ok: bool, rest: seq<byte>)
    requires n <= body.Length
    modifies body
    ensures ok == (n <= |input|)
    ensures ok ==> body[..n] == input[..n] && rest == input[n..]
    ensures !ok ==> rest == []
  {
    ok := n <= |input|;
    if ok {
      Copy(body, 0, input[..n]);
      rest := input[n..];
      assert body[..n] == body[..][..n];
    } else {
      rest := [];
    }
  }

  /**
    Reads a header, and its body into the front of a buffer that is reused from frame to frame and replaced
    by a larger one when it is too small. It succeeds exactly when a whole frame is there.
   */
  method ReadFrame(input: seq<byte>, buffer: array<byte>, headroom: nat)
    returns (ok: bool, hdr: seq<byte>, bodyLen: nat, rest: seq<byte>, body: array<byte>)
    modifies buffer
    ensures body == buffer || fresh(body)
    ensures ok == HasFrame(input)
    ensures ok ==> hdr == input[..HEADER_LEN] && bodyLen == BodyLen(input) <= body.Length && rest == Rest(input)
    ensures ok ==> body[..bodyLen] == input[HEADER_LEN..][..bodyLen]
    ensures !ok ==> rest == []
  {
    ok, hdr, bodyLen, rest, body := false, [], 0, [], buffer;
    if |input| < HEADER_LEN {
      return;
    }
    SameHeader(input);
    hdr, rest := input[..HEADER_LEN], input[HEADER_LEN..];
    bodyLen := GetLE(hdr[1..3]) + GetLE(hdr[3..5]) + GetLE(hdr[5..9]);
    if bodyLen > body.Length {
      body := new byte[bodyLen + headroom];
    }
    ok := true;
    if bodyLen > 0 {
      ok, rest := ReadBody(rest, body, bodyLen);
    }
  }

  class BinarySub {
    var nextSID: nat
    var handlers: Handlers
    /** Bytes written to the connection so far. */
    var out: seq<byte>
    /** Bytes the broker has sent that have not been read. */
    var input: seq<byte>
    /** The callbacks made so far. */
    var delivered: seq<Delivery>
    /** The read loop's body buffer, reused from frame to frame. */
    var body: array<byte>
    const net: Net
    /** The number of writes tried. */
    var writes: nat

    /** The frames written so far, the Pongs that were not, and what became of the subscriptions. */
    ghost var sent: seq<Frame>
    ghost var lostPongs: nat
    ghost var book: Book
    /** All bytes the broker sends, the read steps taken, and the frames read with the handlers of their time. */
    ghost const incoming: seq<byte>
    ghost var steps: nat
    ghost var read: seq<Frame>
    ghost var tables: seq<Handlers>

    ghost function Subscriptions(): Table
      reads this`sent
    {
      Replay(sent)
    }

    ghost predicate Valid()
      reads this
    {
      && WireOK(out, sent, nextSID, handlers.Keys, book)
      && History(incoming, steps, read, tables, input, delivered)
      && Counted(book, lostPongs, net, writes)
    }

    /**
      On a regular connection, the broker's table, replayed from the bytes written, agrees exactly with the
      handlers if and only if no SID has been orphaned. In particular it survives every Sub that was not written.
     */
    lemma ExactIff()
      requires Valid() && book.regular
      ensures Exact(WireTable(out), handlers.Keys) <==> book.orphans == {}
    {
      WireTableOfFrames(sent);
      ExactIffNoOrphans(Subscriptions(), book.owner, book.orphans);
    }

    /** Until the 32-bit counter has wrapped, the next SID is not bound. */
    lemma NextIsFresh()
      requires Valid() && book.issued < SID_LIMIT
      ensures nextSID !in Subscriptions()
    {
      NextSID(book.issued);
    }

    constructor (input: seq<byte>, net: Net)
      ensures Valid() && fresh(body) && this.input == input == incoming && this.net == net && writes == 0
      ensures handlers == map[] && out == [] && sent == [] && delivered == [] && tables == []
      ensures book == NEW_BOOK && lostPongs == steps == 0
    {
      hide WireOK, History, Counted, Replay;
      NothingWritten(net, map[]);
      HistoryStart(input);
      nextSID := 1;
      handlers := map[];
      out := [];
      this.input, incoming := input, input;
      delivered := [];
      body := new byte[512];
      this.net, writes := net, 0;
      sent, lostPongs, book := [], 0, NEW_BOOK;
      steps, read, tables := 0, [], [];
    }

    /** conn.Write of one frame. */
    method Write(frame: array<byte>, ghost f: Frame) returns (ok: bool)
      requires frame[..] == Encode(f)
      modifies this`out, this`writes, this`sent
      ensures ok == net(old(writes)) && writes == old(writes) + 1
      ensures out == if ok then old(out) + Encode(f) else old(out)
      ensures sent == if ok then old(sent) + [f] else old(sent)
    {
      ok := net(writes);
      writes := writes + 1;
      if ok {
        out, sent := out + frame[..], sent + [f];
      }
    }

    /**
      Files the handler under its subject and sends a Sub frame with the next SID.
      When the write fails, the handler is withdrawn and no handle is returned.
     */
    method Subscribe(subject: GoString, feed: Feed) returns (h: Option<Handle>)
      requires Valid()
      modifies this`nextSID, this`handlers, this`out, this`writes, this`sent, this`book
      ensures Valid()
      ensures h.Some? == net(old(writes)) && writes == old(writes) + 1
      ensures h.Some? ==> h.value == Handle(old(nextSID), subject)
      ensures handlers == if h.Some? then old(handlers)[subject := feed] else old(handlers) - {subject}
      ensures sent == if h.Some? then old(sent) + [SubFrame(subject, old(nextSID))] else old(sent)
      ensures Subscriptions() == if h.Some? then old(Subscriptions())[old(nextSID) := subject] else old(Subscriptions())
      ensures book == Subscribed(old(book), old(Subscriptions()), subject, h.Some?)
    {
      hide WireOK, Replay, Encode, History, Subscribed, SubFrame, Counted;
      CountedSubscribe(book, lostPongs, net, writes, Subscriptions(), subject);
      WireAfterSub(out, sent, nextSID, handlers.Keys, book, subject);
      WireAfterLostSub(out, sent, nextSID, handlers.Keys, book, subject);
      var sid := nextSID;
      nextSID := (nextSID + 1) % SID_LIMIT;
      handlers := handlers[subject := feed];
      assert handlers.Keys == old(handlers).Keys + {subject};
      var frame := SubFrameBytes(subject, sid);
      var ok := Write(frame, SubFrame(subject, sid));
      book := Subscribed(book, old(Subscriptions()), subject, ok);
      if ok {
        h := Some(Handle(sid, subject));
      } else {
        assert handlers - {subject} == old(handlers) - {subject};
        handlers := handlers - {subject};
        assert handlers.Keys == old(handlers).Keys - {subject};
        h := None;
      }
    }

    /** Withdraws the handler of the subject and sends an Unsub frame for the SID. */
    method Unsubscribe(h: Handle) returns (ok: bool)
      requires Valid() && h.sid < SID_LIMIT
      modifies this`handlers, this`out, this`writes, this`sent, this`book
      ensures Valid()
      ensures ok == net(old(writes)) && writes == old(writes) + 1
      ensures handlers == old(handlers) - {h.subject}
      ensures sent == if ok then old(sent) + [UnsubFrame(h.sid)] else old(sent)
      ensures Subscriptions() == if ok then old(Subscriptions()) - {h.sid} else old(Subscriptions())
      ensures book == Unsubscribed(old(book), h, ok)
      ensures old(book.regular) && Holds(old(book.owner), h) ==> h.sid !in old(book.orphans)
    {
      hide WireOK, Replay, Encode, History, UnsubFrame, Holds, Unsubscribed, Counted;
      CountedUnsubscribe(book, lostPongs, net, writes, h);
      WireAfterUnsubscribe(out, sent, nextSID, handlers.Keys, book, h);
      handlers := handlers - {h.subject};
      assert handlers.Keys == old(handlers).Keys - {h.subject};
      var frame := UnsubFrameBytes(h.sid);
      ok := Write(frame, UnsubFrame(h.sid));
      book := Unsubscribed(book, h, ok);
    }

    /** One iteration of the read loop. It fails exactly when no whole frame is left to read. */
    method ReadOne() returns (ok: bool)
      requires Valid()
      modifies this`input, this`body, this`delivered, this`out, this`writes, this`sent, this`lostPongs,
               this`steps, this`read, this`tables, body
      ensures Valid() && (body == old(body) || fresh(body))
      ensures steps == old(steps) + 1 && tables == if ok then old(tables) + [handlers] else old(tables)
      ensures ok == HasFrame(old(input))
      ensures ok ==> input == Rest(old(input)) && delivered == old(delivered) + Dispatch(First(old(input)), handlers)
      ensures !ok ==> input == [] && delivered == old(delivered)
      ensures PongStep(ok && First(old(input)).op == OP_PING, net, old(sent), old(lostPongs), old(writes),
                       sent, lostPongs, writes)
      ensures Subscriptions() == old(Subscriptions())
    {
      hide Parse, Replay, Dispatch, History, WireOK, HasFrame, First, Rest, PongStep, BodyLen, Counted;
      HistoryStep(incoming, steps, read, tables, input, delivered, handlers);
      var hdr, bodyLen;
      ok, hdr, bodyLen, input, body := ReadFrame(input, body, 256);
      steps := steps + 1;
      if ok {
        HandleFrame(hdr, bodyLen, old(input));
        read, tables := read + [First(old(input))], tables + [handlers];
      } else {
        NoPing(net, sent, lostPongs, writes);
      }
    }

    method HandleFrame(hdr: seq<byte>, bodyLen: nat, ghost s: seq<byte>)
      requires WireOK(out, sent, nextSID, handlers.Keys, book) && Counted(book, lostPongs, net, writes)
      requires HasFrame(s) && hdr == s[..HEADER_LEN]
      requires bodyLen == BodyLen(s) <= body.Length && body[..bodyLen] == s[HEADER_LEN..][..bodyLen]
      modifies this`delivered, this`out, this`writes, this`sent, this`lostPongs
      ensures WireOK(out, sent, nextSID, handlers.Keys, book) && Counted(book, lostPongs, net, writes)
      ensures Subscriptions() == old(Subscriptions())
      ensures delivered == old(delivered) + Dispatch(First(s), handlers)
      ensures PongStep(First(s).op == OP_PING, net, old(sent), old(lostPongs), old(writes), sent, lostPongs, writes)
    {
      hide WireOK, Replay, PongStep, Counted;
      SameHeader(s);
      SameBody(s, body[..bodyLen]);
      NoPing(net, sent, lostPongs, writes);
      var subjLen, replLen := GetLE(hdr[1..3]), GetLE(hdr[3..5]);
      if hdr[0] == OP_PING {
        SendPong();
      } else if hdr[0] == OP_MSG || hdr[0] == OP_HMSG {
        var subj, pay := body[..subjLen], body[subjLen + replLen..bodyLen];
        assert subj == body[..bodyLen][..subjLen] && pay == body[..bodyLen][subjLen + replLen..];
        if subj in handlers {
          delivered := delivered + [Delivery(handlers[subj], pay)];
        }
      }
    }

    method SendPong()
      requires WireOK(out, sent, nextSID, handlers.Keys, book) && Counted(book, lostPongs, net, writes)
      modifies this`out, this`writes, this`sent, this`lostPongs
      ensures WireOK(out, sent, nextSID, handlers.Keys, book) && Counted(book, lostPongs, net, writes)
      ensures Subscriptions() == old(Subscriptions())
      ensures PongStep(true, net, old(sent), old(lostPongs), old(writes), sent, lostPongs, writes)
    {
      hide WireOK, Replay, Encode, Counted;
      WireAfterPong(out, sent, nextSID, handlers.Keys, book);
      PongBytes();
      var frame := new byte[9](i requires 0 <= i < 9 => PONG_BYTES[i]);
      assert frame[..] == PONG_BYTES;
      var ok := Write(frame, PONG_FRAME);
      lostPongs := if ok then lostPongs else lostPongs + 1;
      CountedPong(book, true, net, old(sent), old(lostPongs), old(writes), sent, lostPongs, writes);
    }

    /** Runs until the stream ends or breaks off inside a frame. */
    method ReadLoop()
      requires Valid()
      modifies this`input, this`body, this`delivered, this`out, this`writes, this`sent, this`lostPongs,
               this`steps, this`read, this`tables, body
      ensures Valid()
      ensures delivered == old(delivered) + DispatchAll(Parse(old(input)), handlers)
      ensures Answered(old(sent), sent, lostPongs - old(lostPongs), Pings(Parse(old(input))))
      ensures Subscriptions() == old(Subscriptions())
    {
      NothingAnswered(sent);
      hide BinarySub.Valid, Dispatch, DispatchAll, Replay, Answered, Pings, HasFrame, First, Rest, Parse, PongStep;
      assert DispatchAll([], handlers) == [] by { NothingDispatched(handlers); }
      ghost var done: seq<Frame> := [];
      var ok := true;
      while ok
        invariant Valid() && (body == old(body) || fresh(body))
        invariant Subscriptions() == old(Subscriptions())
        invariant ok ==> done + Parse(input) == Parse(old(input))
        invariant !ok ==> done == Parse(old(input))
        invariant delivered == old(delivered) + DispatchAll(done, handlers)
        invariant Answered(old(sent), sent, lostPongs - old(lostPongs), Pings(done))
        decreases ok, |input|
      {
        ghost var before, sent0, lost0, writes0 := input, sent, lostPongs, writes;
        ParseOnce(input);
        ok := ReadOne();
        if ok {
          DispatchSnoc(done, First(before), handlers);
          Assoc(old(delivered), DispatchAll(done, handlers), Dispatch(First(before), handlers));
          PingsSnoc(done, First(before));
          AnsweredStep(First(before).op == OP_PING, net, sent0, lost0, writes0, sent, lostPongs, writes);
          AnsweredJoins(old(sent), sent0, lost0 - old(lostPongs), Pings(done), sent, lostPongs - lost0,
                        if First(before).op == OP_PING then 1 else 0);
          Assoc(done, [First(before)], Parse(input));
          done := done + [First(before)];
        } else {
          NoPingMeans(net, sent0, lost0, writes0, sent, lostPongs, writes);
        }
      }
    }
  }

  lemma NextSID(issued: nat)
    ensures (NthSID(issued) + 1) % SID_LIMIT == NthSID(issued + 1)
    ensures issued < SID_LIMIT - 1 ==> NthSID(issued) == issued + 1
    ensures issued == SID_LIMIT - 1 ==> NthSID(issued) == 0
    ensures NthSID(issued) < SID_LIMIT
  {
  }

  lemma SameHeader(s: seq<byte>)
    requires HEADER_LEN <= |s|
    ensures var h := s[..HEADER_LEN]; h[0] == s[0] && h[1..3] == s[1..3] && h[3..5] == s[3..5] && h[5..9] == s[5..9]
    ensures HasFrame(s) <==> BodyLen(s) <= |s[HEADER_LEN..]|
    ensures HasFrame(s) ==> Rest(s) == s[HEADER_LEN..][BodyLen(s)..]
  {
  }

  lemma SameBody(s: seq<byte>, body: seq<byte>)
    requires HasFrame(s) && body == s[HEADER_LEN..][..BodyLen(s)]
    ensures First(s).subject == body[..SubjLen(s)] && First(s).payload == body[SubjLen(s) + ReplLen(s)..]
  {
    assert body == s[HEADER_LEN..HEADER_LEN + BodyLen(s)];
  }

  lemma {:induction false} DispatchSnoc(fs: seq<Frame>, f: Frame, handlers: Handlers)
    ensures DispatchAll(fs + [f], handlers) == DispatchAll(fs, handlers) + Dispatch(f, handlers)
  {
    var all := fs + [f];
    if fs == [] {
      assert all[1..] == [];
    } else {
      assert all[0] == fs[0] && all[1..] == fs[1..] + [f];
      DispatchSnoc(fs[1..], f, handlers);
      Assoc(Dispatch(fs[0], handlers), DispatchAll(fs[1..], handlers), Dispatch(f, handlers));
    }
  }

  lemma DispatchEachSnoc(fs: seq<Frame>, tables: seq<Handlers>, f: Frame, table: Handlers)
    requires |fs| == |tables|
    ensures DispatchEach(fs + [f], tables + [table]) == DispatchEach(fs, tables) + Dispatch(f, table)
  {
    assert (fs + [f])[..|fs|] == fs && (tables + [table])[..|fs|] == tables;
  }

  lemma NothingDispatched(handlers: Handlers)
    ensures DispatchAll([], handlers) == []
  {
  }

  lemma NothingAnswered(sent: seq<Frame>)
    ensures Answered(sent, sent, 0, Pings([]))
  {
  }
}
