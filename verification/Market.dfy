/** One market goroutine: round-robin publishing with per-symbol sequence counters that survive reconnects. */
module Market {
  import opened Broker
  import opened Bytes
  import opened Encoders
  import opened Frames
  import opened Msg
  import opened Tracker
  import opened Wrappers

  /** A publish attempt: the slot it was for, what was sent, and whether the write succeeded. */
  datatype Attempt = Attempt(slot: nat, payload: seq<byte>, ok: bool)

  /** The number of successful publishes in a list of outcomes. */
  function Wins(oks: seq<bool>): nat {
    if oks == [] then 0 else Wins(oks[..|oks| - 1]) + if oks[|oks| - 1] then 1 else 0
  }

  /** The slot the next attempt is for. */
  function SlotAfter(n: nat, oks: seq<bool>): (slot: nat)
    requires 0 < n
    ensures slot < n
  {
    Wins(oks) % n
  }

  /** The attempts, and the successful ones, that the outcomes stand for on one slot. */
  function Tries(n: nat, oks: seq<bool>, slot: nat): nat
    requires 0 < n
  {
    if oks == [] then 0
    else Tries(n, oks[..|oks| - 1], slot) + if SlotAfter(n, oks[..|oks| - 1]) == slot then 1 else 0
  }

  function SlotWins(n: nat, oks: seq<bool>, slot: nat): nat
    requires 0 < n
  {
    if oks == [] then 0
    else
      var front := oks[..|oks| - 1];
      SlotWins(n, front, slot) + if SlotAfter(n, front) == slot && oks[|oks| - 1] then 1 else 0
  }

  function SlotFailures(n: nat, oks: seq<bool>, slot: nat): nat
    requires 0 < n
  {
    if oks == [] then 0
    else
      var front := oks[..|oks| - 1];
      SlotFailures(n, front, slot) + if SlotAfter(n, front) == slot && !oks[|oks| - 1] then 1 else 0
  }

  /** A slot's attempts are its successes and its failures. */
  lemma {:induction false} TriesSplit(n: nat, oks: seq<bool>, slot: nat)
    requires 0 < n
    ensures Tries(n, oks, slot) == SlotWins(n, oks, slot) + SlotFailures(n, oks, slot) <= |oks|
  {
    if oks != [] {
      TriesSplit(n, oks[..|oks| - 1], slot);
    }
  }

  lemma DivModNext(w: nat, n: nat)
    requires 0 < n
    ensures (w + 1) % n == if w % n == n - 1 then 0 else w % n + 1
    ensures (w + 1) / n == if w % n == n - 1 then w / n + 1 else w / n
  {
    var q, r := w / n, w % n;
    assert w == n * q + r;
    if r == n - 1 {
      assert n * (q + 1) == n * q + n;
      ModUnique(w + 1, n, q + 1, 0);
    } else {
      ModUnique(w + 1, n, q, r + 1);
    }
  }

  /** The full rounds of successful publishes made. */
  function Rounds(n: nat, oks: seq<bool>): nat
    requires 0 < n
  {
    Wins(oks) / n
  }

  lemma RoundStep(n: nat, oks: seq<bool>)
    requires 0 < n && oks != []
    ensures var front, ok := oks[..|oks| - 1], oks[|oks| - 1];
            var last := SlotAfter(n, front) == n - 1;
            && Rounds(n, oks) == Rounds(n, front) + (if ok && last then 1 else 0)
            && SlotAfter(n, oks) == if !ok then SlotAfter(n, front) else if last then 0 else SlotAfter(n, front) + 1
  {
    DivModNext(Wins(oks[..|oks| - 1]), n);
  }

  /**
    Whatever fails, successful publishes are spread evenly: every slot has had one in each full round,
    and the slots before the current one are one ahead.
   */
  lemma {:induction false} RoundRobin(n: nat, oks: seq<bool>, slot: nat)
    requires slot < n
    ensures SlotWins(n, oks, slot) == Rounds(n, oks) + if slot < SlotAfter(n, oks) then 1 else 0
  {
    if oks != [] {
      RoundRobin(n, oks[..|oks| - 1], slot);
      RoundStep(n, oks);
      hide Rounds, SlotAfter;
    }
  }

  /** The sequence number a payload carries, if it is long enough to carry one. */
  function SeqNoOf(payload: seq<byte>): Option<uint64> {
    if |payload| < MIN_SIZE then None else Some(GetLE8(payload[8..16]))
  }

  /** The attempts are made in round-robin order and numbered per slot from zero, failures included. */
  ghost predicate Numbered(log: seq<Attempt>, n: nat, oks: seq<bool>)
    requires 0 < n
  {
    && |log| == |oks|
    && forall k :: 0 <= k < |log| ==> NumberedAt(log[k], n, oks, k)
  }

  ghost predicate NumberedAt(a: Attempt, n: nat, oks: seq<bool>, k: nat)
    requires 0 < n && k < |oks|
  {
    && a.ok == oks[k] && a.slot == SlotAfter(n, oks[..k])
    && SeqNoOf(a.payload) == Some(ToUint64(Tries(n, oks[..k], a.slot)))
  }

  lemma NumberedSnoc(log: seq<Attempt>, n: nat, oks: seq<bool>, a: Attempt)
    requires 0 < n && Numbered(log, n, oks)
    requires a.slot == SlotAfter(n, oks) && SeqNoOf(a.payload) == Some(ToUint64(Tries(n, oks, a.slot)))
    ensures Numbered(log + [a], n, oks + [a.ok])
  {
    hide SlotAfter, Tries, SeqNoOf, ToUint64;
    var log', oks' := log + [a], oks + [a.ok];
    forall k | 0 <= k < |log'| ensures NumberedAt(log'[k], n, oks', k) {
      if k < |log| {
        assert NumberedAt(log[k], n, oks, k);
        assert oks'[..k] == oks[..k];
      } else {
        assert oks'[..k] == oks;
      }
    }
  }

  /** Every attempt's message has the size asked for. */
  ghost predicate Sized(log: seq<Attempt>, size: nat) {
    forall a <- log :: |a.payload| == size
  }

  lemma SizedSnoc(log: seq<Attempt>, size: nat, a: Attempt)
    requires Sized(log, size) && |a.payload| == size
    ensures Sized(log + [a], size)
  {
  }

  /** The frames of the attempts that succeeded. */
  function SentFrames(symbols: seq<GoString>, log: seq<Attempt>): seq<Frame> {
    if log == [] then []
    else
      var front, a := SentFrames(symbols, log[..|log| - 1]), log[|log| - 1];
      if a.ok && a.slot < |symbols| then front + [MsgFrame(symbols[a.slot], a.payload)] else front
  }

  lemma SentSnoc(symbols: seq<GoString>, log: seq<Attempt>, a: Attempt)
    requires a.slot < |symbols|
    ensures EncodeAll(SentFrames(symbols, log + [a]))
            == if a.ok then EncodeAll(SentFrames(symbols, log)) + Frames.Encode(MsgFrame(symbols[a.slot], a.payload))
               else EncodeAll(SentFrames(symbols, log))
  {
    hide Frames.Encode;
    assert (log + [a])[..|log|] == log;
    if a.ok {
      EncodeAllSnoc(SentFrames(symbols, log), MsgFrame(symbols[a.slot], a.payload));
    }
  }

  lemma SentAppend(symbols: seq<GoString>, log: seq<Attempt>, more: seq<Attempt>)
    ensures EncodeAll(SentFrames(symbols, log + more))
            == EncodeAll(SentFrames(symbols, log)) + EncodeAll(SentFrames(symbols, more))
  {
    SentFramesAppend(symbols, log, more);
    EncodeAllAppend(SentFrames(symbols, log), SentFrames(symbols, more));
  }

  lemma {:induction false} SentFramesAppend(symbols: seq<GoString>, log: seq<Attempt>, more: seq<Attempt>)
    ensures SentFrames(symbols, log + more) == SentFrames(symbols, log) + SentFrames(symbols, more)
  {
    if more == [] {
      assert log + more == log;
    } else {
      assert (log + more)[..|log + more| - 1] == log + more[..|more| - 1];
      SentFramesAppend(symbols, log, more[..|more| - 1]);
    }
  }

  /** One connection: the ticks there would be before stop, and which writes succeed. */
  datatype Link = Link(ticks: nat, net: Net)

  /** A connection's outcomes: it goes on for all its ticks, unless a publish fails, which ends it. */
  ghost predicate OneConnection(oks: seq<bool>, link: Link) {
    && |oks| <= link.ticks
    && (forall k :: 0 <= k < |oks| ==> oks[k] == link.net(k))
    && (forall k :: 0 <= k < |oks| - 1 ==> oks[k])
    && (|oks| < link.ticks ==> oks != [] && !oks[|oks| - 1])
  }

  /** That determines the outcomes completely. */
  lemma OneConnectionUnique(a: seq<bool>, b: seq<bool>, link: Link)
    requires OneConnection(a, link) && OneConnection(b, link)
    ensures a == b
  {
    assert a != [] ==> a[|a| - 1] == link.net(|a| - 1);
    assert b != [] ==> b[|b| - 1] == link.net(|b| - 1);
    assert 0 < |a| <= |b| ==> b[|a| - 1] == link.net(|a| - 1);
    assert 0 < |b| <= |a| ==> a[|b| - 1] == link.net(|b| - 1);
  }

  /** The outcomes so far of a connection that has gone on until now; ok is the last of them. */
  ghost predicate GoingOn(oks: seq<bool>, net: Net, ok: bool) {
    && (forall k :: 0 <= k < |oks| ==> oks[k] == net(k))
    && (forall k :: 0 <= k < |oks| - 1 ==> oks[k])
    && ok == (oks == [] || oks[|oks| - 1])
  }

  lemma GoesOn(oks: seq<bool>, net: Net, ok: bool)
    requires GoingOn(oks, net, true) && ok == net(|oks|)
    ensures GoingOn(oks + [ok], net, ok)
  {
  }

  lemma GoingOnStarts(net: Net)
    ensures GoingOn([], net, true)
  {
  }

  lemma GoingOnEnds(oks: seq<bool>, net: Net, ok: bool, ticks: nat)
    requires GoingOn(oks, net, ok) && |oks| <= ticks && (ok ==> |oks| == ticks)
    ensures OneConnection(oks, Link(ticks, net))
  {
  }

  lemma NoConnection()
    ensures Connections([], [])
  {
  }

  /** The outcomes of a number of connections, one after the other. */
  ghost predicate Connections(oks: seq<bool>, links: seq<Link>)
    decreases |links|
  {
    if links == [] then oks == []
    else
      exists k :: 0 <= k <= |oks|
                  && Connections(oks[..k], links[..|links| - 1]) && OneConnection(oks[k..], links[|links| - 1])
  }

  lemma SameParts(a: seq<bool>, j: nat, b: seq<bool>, k: nat)
    requires j <= |a| && k <= |b| && a[..j] == b[..k] && a[j..] == b[k..]
    ensures a == b
  {
    assert a == a[..j] + a[j..] && b == b[..k] + b[k..];
  }

  /** And so do the connections of a run determine all its outcomes. */
  lemma {:induction false} ConnectionsUnique(a: seq<bool>, b: seq<bool>, links: seq<Link>)
    requires Connections(a, links) && Connections(b, links)
    ensures a == b
    decreases |links|
  {
    hide OneConnection;
    if links != [] {
      var front, link := links[..|links| - 1], links[|links| - 1];
      var j :| 0 <= j <= |a| && Connections(a[..j], front) && OneConnection(a[j..], link);
      var k :| 0 <= k <= |b| && Connections(b[..k], front) && OneConnection(b[k..], link);
      ConnectionsUnique(a[..j], b[..k], front);
      OneConnectionUnique(a[j..], b[k..], link);
      SameParts(a, j, b, k);
    }
  }

  /** What an extended history has more than before. */
  function Since<T>(now: seq<T>, before: seq<T>): seq<T>
    requires before <= now
  {
    now[|before|..]
  }

  lemma SinceSnoc<T>(before: seq<T>, now: seq<T>, x: T)
    requires before <= now
    ensures before <= now + [x] && Since(now + [x], before) == Since(now, before) + [x]
  {
  }

  lemma SinceJoins<T>(before: seq<T>, middle: seq<T>, now: seq<T>)
    requires before <= middle <= now
    ensures Since(now, before) == Since(middle, before) + Since(now, middle)
  {
  }

  lemma OneMoreConnection(before: seq<bool>, middle: seq<bool>, now: seq<bool>, done: seq<Link>, link: Link)
    requires before <= middle <= now
    requires Connections(Since(middle, before), done) && OneConnection(Since(now, middle), link)
    ensures Connections(Since(now, before), done + [link])
  {
    SinceJoins(before, middle, now);
    var oks, k := Since(now, before), |middle| - |before|;
    assert oks[..k] == Since(middle, before) && oks[k..] == Since(now, middle);
    assert (done + [link])[..|done|] == done;
  }

  /** The shard's Published counter. */
  class Counter {
    var value: nat
    constructor () ensures value == 0 { value := 0; }
    method Add(n: nat) modifies this ensures value == old(value) + n { value := value + n; }
  }

  class ClassPublisher {
    const symbols: seq<GoString>
    const symSeqs: array<uint64>
    const payload: array<byte>
    const published: Counter
    var symIdx: nat
    var localPub: nat
    /** Every attempt made, and the outcomes it had. */
    ghost var log: seq<Attempt>
    ghost var oks: seq<bool>

    ghost predicate Valid()
      reads this, symSeqs
    {
      && 0 < |symbols| == symSeqs.Length && MIN_SIZE <= payload.Length
      && symIdx == SlotAfter(|symbols|, oks)
      && (forall s :: 0 <= s < symSeqs.Length ==> symSeqs[s] == ToUint64(Tries(|symbols|, oks, s)))
      && Numbered(log, |symbols|, oks) && Sized(log, payload.Length)
      && localPub < 512
    }

    constructor (symbols: seq<GoString>, payloadSize: nat, published: Counter)
      requires symbols != [] && MIN_SIZE <= payloadSize
      ensures Valid() && fresh(symSeqs) && fresh(payload) && oks == [] && localPub == 0
      ensures this.symbols == symbols && this.published == published && payload.Length == payloadSize
    {
      this.symbols, this.published := symbols, published;
      symSeqs := new uint64[|symbols|](_ => 0);
      payload := new byte[payloadSize](_ => 0);
      symIdx, localPub, log, oks := 0, 0, [], [];
      new;
      SlotAtStart(|symbols|);
    }

    /** One tick: number the message, publish it, and only on success move on and count it. */
    method Tick(pub: BinaryPub) returns (ok: bool, ghost a: Attempt)
      requires Valid() && pub.Valid() && payload != pub.buf.data
      modifies this`symIdx, this`localPub, this`log, this`oks, symSeqs, payload, published,
               pub`out, pub`writes, pub.buf, pub.buf.data
      ensures Valid() && pub.Valid() && (pub.buf.data == old(pub.buf.data) || fresh(pub.buf.data))
      ensures ok == pub.net(old(pub.writes)) && pub.writes == old(pub.writes) + 1
      ensures oks == old(oks) + [ok] && log == old(log) + [a] && a.ok == ok && a.slot < |symbols|
      ensures |a.payload| == payload.Length
      ensures published.value + localPub == old(published.value) + old(localPub) + if ok then 1 else 0
      ensures pub.out == if ok then old(pub.out) + Frames.Encode(MsgFrame(symbols[a.slot], a.payload)) else old(pub.out)
    {
      hide ToUint64, SeqNoOf, GetLE8, Numbered, Sized, Frames.Encode, Encoded, MsgFrame, Tries, SlotAfter;
      var n := |symbols|;
      var now: int64 := *;
      var seqNo := symSeqs[symIdx];
      Msg.Encode(payload, now, seqNo);
      SeqNoOfEncoded(old(payload[..]), now, seqNo);
      symSeqs[symIdx] := ToUint64(seqNo as int + 1);
      ok := pub.Publish(symbols[symIdx], payload[..]);
      a := Attempt(symIdx, payload[..], ok);
      NumberedSnoc(log, n, oks, a);
      SizedSnoc(log, payload.Length, a);
      Bookkeeping(n, oks, ok, symIdx);
      log, oks := log + [a], oks + [ok];
      if ok {
        symIdx := (symIdx + 1) % n;
        localPub := localPub + 1;
        if localPub == 512 {
          published.Add(512);
          localPub := 0;
        }
      }
    }

    /** One connection: `ticks` ticks before stop, ending early at the first failed publish. */
    method RunConnection(pub: BinaryPub, ticks: nat)
      requires Valid() && pub.Valid() && pub.writes == 0 && payload != pub.buf.data
      modifies this`symIdx, this`localPub, this`log, this`oks, symSeqs, payload, published,
               pub`out, pub`writes, pub.buf, pub.buf.data
      ensures Valid() && old(oks) <= oks && old(log) <= log
      ensures OneConnection(Since(oks, old(oks)), Link(ticks, pub.net))
      ensures published.value + localPub - old(published.value) - old(localPub) == Wins(oks) - Wins(old(oks))
      ensures pub.out == old(pub.out) + EncodeAll(SentFrames(symbols, Since(log, old(log))))
    {
      hide ToUint64, Numbered, Frames.Encode, MsgFrame, SentFrames, EncodeAll, Wins, SlotAfter, Tries, Since,
           ClassPublisher.Valid, GoingOn, OneConnection;
      GoingOnStarts(pub.net);
      NothingSince(oks);
      NothingSince(log);
      SentNothing(symbols);
      var i := 0;
      var ok := true;
      while i < ticks && ok
        invariant 0 <= i <= ticks && Valid() && pub.Valid() && payload != pub.buf.data
        invariant pub.buf.data == old(pub.buf.data) || fresh(pub.buf.data)
        invariant old(oks) <= oks && old(log) <= log
        invariant |Since(oks, old(oks))| == i == pub.writes && GoingOn(Since(oks, old(oks)), pub.net, ok)
        invariant published.value + localPub - old(published.value) - old(localPub) == Wins(oks) - Wins(old(oks))
        invariant pub.out == old(pub.out) + EncodeAll(SentFrames(symbols, Since(log, old(log))))
      {
        WinsSnoc(oks, true);
        WinsSnoc(oks, false);
        ghost var oks0, log0 := oks, log;
        ghost var a;
        ok, a := Tick(pub);
        SinceSnoc(old(oks), oks0, ok);
        GoesOn(Since(oks0, old(oks)), pub.net, ok);
        SinceSnoc(old(log), log0, a);
        SentSnoc(symbols, Since(log0, old(log)), a);
        Assoc(old(pub.out), EncodeAll(SentFrames(symbols, Since(log0, old(log)))),
              Frames.Encode(MsgFrame(symbols[a.slot], a.payload)));
        i := i + 1;
      }
      GoingOnEnds(Since(oks, old(oks)), pub.net, ok, ticks);
    }

    /**
      The whole goroutine: connect, tick until a publish fails, reconnect, and flush at the end.
      The outcomes are arbitrary, so every interleaving of failures and reconnects is covered.
      What all connections carried, one after the other, is exactly the frames of the successful attempts.
     */
    method Run(connections: seq<Link>) returns (ghost wire: seq<byte>)
      requires Valid()
      modifies this`symIdx, this`localPub, this`log, this`oks, symSeqs, payload, published
      ensures Valid() && localPub == 0 && old(oks) <= oks && old(log) <= log && Sized(log, payload.Length)
      ensures Connections(Since(oks, old(oks)), connections)
      ensures published.value - old(published.value) == Wins(oks) - Wins(old(oks)) + old(localPub)
      ensures wire == EncodeAll(SentFrames(symbols, Since(log, old(log))))
    {
      hide ToUint64, Numbered, Sized, SentFrames, EncodeAll, Wins, SlotAfter, Tries, Since, OneConnection,
           Connections;
      NoConnection();
      assert connections[..0] == [];
      NothingSince(oks);
      NothingSince(log);
      SentNothing(symbols);
      wire := [];
      var c := 0;
      while c < |connections|
        invariant 0 <= c <= |connections| && Valid() && old(oks) <= oks && old(log) <= log
        invariant Connections(Since(oks, old(oks)), connections[..c])
        invariant published.value + localPub - old(published.value) - old(localPub) == Wins(oks) - Wins(old(oks))
        invariant wire == EncodeAll(SentFrames(symbols, Since(log, old(log))))
      {
        ghost var oks0, log0 := oks, log;
        var pub := new BinaryPub(connections[c].net);
        RunConnection(pub, connections[c].ticks);
        assert Link(connections[c].ticks, connections[c].net) == connections[c];
        wire := wire + pub.out;
        OneMoreConnection(old(oks), oks0, oks, connections[..c], connections[c]);
        assert connections[..c + 1] == connections[..c] + [connections[c]];
        SinceJoins(old(log), log0, log);
        SentAppend(symbols, Since(log0, old(log)), Since(log, log0));
        c := c + 1;
      }
      assert connections[..c] == connections;
      published.Add(localPub);
      localPub := 0;
    }
  }

  lemma NothingSince<T>(now: seq<T>)
    ensures Since(now, now) == []
  {
  }

  lemma SentNothing(symbols: seq<GoString>)
    ensures EncodeAll(SentFrames(symbols, [])) == []
  {
  }

  lemma SlotAtStart(n: nat)
    requires 0 < n
    ensures SlotAfter(n, []) == 0
  {
  }

  lemma WinsSnoc(oks: seq<bool>, ok: bool)
    ensures Wins(oks + [ok]) == Wins(oks) + if ok then 1 else 0
  {
    assert (oks + [ok])[..|oks|] == oks;
  }

  lemma NextUint64(x: nat)
    ensures ToUint64(x + 1) == ToUint64(ToUint64(x) as int + 1)
  {
    DivModNext(x, U64);
    DivModNext(ToUint64(x), U64);
  }

  lemma NextSlot(n: nat, oks: seq<bool>, ok: bool)
    requires 0 < n
    ensures SlotAfter(n, oks + [ok]) == if ok then (SlotAfter(n, oks) + 1) % n else SlotAfter(n, oks)
  {
    WinsSnoc(oks, ok);
    DivModNext(Wins(oks), n);
    var slot := SlotAfter(n, oks);
    ModUnique(slot + 1, n, if slot == n - 1 then 1 else 0, if slot == n - 1 then 0 else slot + 1);
  }

  lemma TriesSnoc(n: nat, oks: seq<bool>, ok: bool, s: nat)
    requires 0 < n
    ensures Tries(n, oks + [ok], s) == Tries(n, oks, s) + if SlotAfter(n, oks) == s then 1 else 0
  {
    assert (oks + [ok])[..|oks|] == oks;
  }

  /** What one more outcome does to the slot and to every slot's counter. */
  lemma Bookkeeping(n: nat, oks: seq<bool>, ok: bool, slot: nat)
    requires 0 < n && slot == SlotAfter(n, oks)
    ensures SlotAfter(n, oks + [ok]) == if ok then (slot + 1) % n else slot
    ensures ToUint64(Tries(n, oks + [ok], slot)) == ToUint64(ToUint64(Tries(n, oks, slot)) as int + 1)
    ensures forall s: nat :: s != slot ==> Tries(n, oks + [ok], s) == Tries(n, oks, s)
  {
    hide ToUint64, SlotAfter, Tries, Wins;
    NextSlot(n, oks, ok);
    forall s: nat ensures Tries(n, oks + [ok], s) == Tries(n, oks, s) + if SlotAfter(n, oks) == s then 1 else 0 {
      TriesSnoc(n, oks, ok, s);
    }
    NextUint64(Tries(n, oks, slot));
  }

  lemma SeqNoOfEncoded(buf: seq<byte>, now: int64, seqNo: uint64)
    requires MIN_SIZE <= |buf|
    ensures SeqNoOf(Encoded(buf, now, seqNo)) == Some(seqNo)
  {
    DecodeEncoded(buf, now, seqNo, now);
  }

  /** Two decodings of a payload differ at most in the latency. */
  lemma SeqNoOfDecode(payload: seq<byte>, now: int64)
    ensures SeqNoOf(payload) == match Decode(payload, now) case None => None case Some(d) => Some(d.seqNo)
  {
  }
}
