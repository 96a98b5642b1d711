/** market-sim-bin: one connection's batched publishing loop, and the loop that answers Pings beside it. */
module SimBin {
  import opened Broker
  import opened Bytes
  import opened Encoders
  import opened Frames
  import opened Market
  import opened Msg
  import opened Transport
  import opened Wrappers
  import Rate

  const PUBLISH_BATCH: nat := 1024

  /** Frames numbered from n on, each of the given size and with one of the connection's subjects. */
  ghost predicate NumberedFrom(fs: seq<Frame>, n: nat, subjects: seq<GoString>, size: nat) {
    forall k :: 0 <= k < |fs| ==> NumberedFrame(fs[k], n + k, subjects, size)
  }

  ghost predicate NumberedFrame(f: Frame, n: nat, subjects: seq<GoString>, size: nat) {
    && f.op == OP_MSG && f.reply == [] && f.subject in subjects
    && SeqNoOf(f.payload) == Some(ToUint64(n)) && |f.payload| == size
  }

  lemma NumberedFromSnoc(fs: seq<Frame>, n: nat, subjects: seq<GoString>, size: nat, f: Frame)
    requires NumberedFrom(fs, n, subjects, size) && NumberedFrame(f, n + |fs|, subjects, size)
    ensures NumberedFrom(fs + [f], n, subjects, size)
  {
    hide NumberedFrame;
  }

  lemma NumberedFromJoins(fs: seq<Frame>, gs: seq<Frame>, subjects: seq<GoString>, size: nat)
    requires NumberedFrom(fs, 0, subjects, size) && NumberedFrom(gs, |fs|, subjects, size)
    ensures NumberedFrom(fs + gs, 0, subjects, size)
  {
    hide NumberedFrame;
    forall k | 0 <= k < |fs + gs| ensures NumberedFrame((fs + gs)[k], k, subjects, size) {
      if k >= |fs| {
        assert NumberedFrame(gs[k - |fs|], |fs| + (k - |fs|), subjects, size);
      }
    }
  }

  /** The sequence counter of one connection, and the messages it has not added to the shared count yet. */
  datatype Position = Position(seqNo: uint64, localCount: nat)

  /** Where n messages lead. */
  function After(n: nat): Position {
    Position(ToUint64(n), n % PUBLISH_BATCH)
  }

  /** The part of a count that has been flushed in full batches of 1024. */
  function Flushed(n: nat): (f: nat)
    ensures f % PUBLISH_BATCH == 0 && f <= n < f + PUBLISH_BATCH
  {
    n / PUBLISH_BATCH * PUBLISH_BATCH
  }

  /** One message: any of the subjects, the next number, and a flush of the local count at 1024. */
  method AppendNext(subjects: seq<GoString>, buf: Buffer, payload: array<byte>, published: Counter,
                    s: Position, ghost n: nat)
    returns (t: Position, ghost f: Frame)
    requires subjects != [] && buf.Valid() && payload != buf.data && MIN_SIZE <= payload.Length
    requires s == After(n)
    modifies buf, buf.data, payload, published
    ensures buf.Valid() && (buf.data == old(buf.data) || fresh(buf.data))
    ensures buf.Contents() == old(buf.Contents()) + Frames.Encode(f) && NumberedFrame(f, n, subjects, payload.Length)
    ensures t == After(n + 1) && published.value + t.localCount == old(published.value) + s.localCount + 1
  {
    hide ToUint64, SeqNoOf, Frames.Encode, Encoded;
    var i: nat :| i < |subjects|;
    var now: int64 := *;
    SeqNoOfEncoded(payload[..], now, s.seqNo);
    Msg.Encode(payload, now, s.seqNo);
    NextUint64(n);
    DivModNext(n, PUBLISH_BATCH);
    f := MsgFrame(subjects[i], payload[..]);
    buf.AppendMsgGrowing(subjects[i], payload[..]);
    var local := s.localCount + 1;
    if local == PUBLISH_BATCH {
      published.Add(local);
      local := 0;
    }
    t := Position(ToUint64(s.seqNo as int + 1), local);
  }

  /** One tick's batch. */
  method FillBatch(subjects: seq<GoString>, buf: Buffer, payload: array<byte>, published: Counter,
                   s: Position, perTick: nat, ghost n: nat)
    returns (t: Position, ghost batch: seq<Frame>)
    requires subjects != [] && buf.Valid() && payload != buf.data && MIN_SIZE <= payload.Length
    requires s == After(n)
    modifies buf, buf.data, payload, published
    ensures buf.Valid() && (buf.data == old(buf.data) || fresh(buf.data))
    ensures buf.Contents() == EncodeAll(batch) && |batch| == perTick && NumberedFrom(batch, n, subjects, payload.Length)
    ensures t == After(n + perTick) && published.value + t.localCount == old(published.value) + s.localCount + perTick
  {
    hide After, Frames.Encode, EncodeAll, NumberedFrom, NumberedFrame;
    buf.Reset();
    t, batch := s, [];
    NothingEncoded();
    NothingNumbered(n, subjects, payload.Length);
    var i := 0;
    while i < perTick
      invariant 0 <= i <= perTick
      invariant buf.Valid() && (buf.data == old(buf.data) || fresh(buf.data)) && payload != buf.data
      invariant buf.Contents() == EncodeAll(batch) && |batch| == i && NumberedFrom(batch, n, subjects, payload.Length)
      invariant t == After(n + i) && published.value + t.localCount == old(published.value) + s.localCount + i
    {
      ghost var f;
      t, f := AppendNext(subjects, buf, payload, published, t, n + i);
      EncodeAllSnoc(batch, f);
      NumberedFromSnoc(batch, n, subjects, payload.Length, f);
      batch := batch + [f];
      i := i + 1;
    }
  }

  lemma NothingEncoded()
    ensures EncodeAll([]) == []
  {
  }

  lemma NothingNumbered(n: nat, subjects: seq<GoString>, size: nat)
    ensures NumberedFrom([], n, subjects, size)
  {
  }

  /**
    The publishing loop for a number of ticks, or until a batch cannot be written. The wire carries whole
    batches of consecutively numbered messages. The final flush happens only on a normal end: after a failed
    write, the shared count is short of what was encoded by whatever was not yet flushed.
   */
  method RunPublisher(subjects: seq<GoString>, payloadSize: nat, rate: nat, link: Link, published: Counter)
    returns (ok: bool, out: seq<byte>, ghost written: seq<Frame>, ghost batches: nat)
    requires subjects != [] && MIN_SIZE <= payloadSize && 0 < rate
    modifies published
    ensures out == EncodeAll(written) && NumberedFrom(written, 0, subjects, payloadSize)
    ensures (forall t :: 0 <= t < batches ==> link.net(t))
    ensures if ok then batches == link.ticks else batches < link.ticks && !link.net(batches)
    ensures 0 < Rate.TicksPerSecond(rate) && |written| == MessagesIn(batches, Rate.MsgsPerTick(rate))
    ensures published.value - old(published.value)
            == if ok then |written| else Flushed(|written| + Rate.MsgsPerTick(rate))
  {
    hide After, EncodeAll, NumberedFrom, MessagesIn, Rate.MsgsPerTick, Rate.Interval, Rate.TicksPerSecond;
    var interval, perTick := Rate.TickPlan(rate);
    var buf := new Buffer(1);
    var payload := new byte[payloadSize](_ => 0);
    var s := Position(0, 0);
    ok, out, written, batches := true, [], [], 0;
    NothingEncoded();
    NothingNumbered(0, subjects, payloadSize);
    StartOfRun(perTick);
    var tick := 0;
    while tick < link.ticks
      invariant batches == tick <= link.ticks && ok && forall t :: 0 <= t < tick ==> link.net(t)
      invariant fresh(buf) && fresh(buf.data) && fresh(payload) && buf.Valid() && payload != buf.data
      invariant payload.Length == payloadSize
      invariant out == EncodeAll(written) && NumberedFrom(written, 0, subjects, payloadSize)
      invariant |written| == MessagesIn(batches, perTick)
      invariant s == After(|written|) && published.value + s.localCount - old(published.value) == |written|
    {
      ghost var batch;
      s, batch := FillBatch(subjects, buf, payload, published, s, perTick, |written|);
      LocalIsRest(|written| + perTick);
      ok := link.net(tick);
      if !ok {
        return;
      }
      out := out + buf.data[..buf.len];
      EncodeAllAppend(written, batch);
      NumberedFromJoins(written, batch, subjects, payloadSize);
      OneMoreBatch(batches, perTick);
      tick := tick + 1;
      written, batches := written + batch, tick;
    }
    if s.localCount > 0 {
      published.Add(s.localCount);
    }
  }

  function MessagesIn(a: nat, b: nat): nat { a * b }

  lemma StartOfRun(perTick: nat)
    ensures After(0) == Position(0, 0) && MessagesIn(0, perTick) == 0
  {
  }

  lemma OneMoreBatch(a: nat, b: nat)
    ensures MessagesIn(a + 1, b) == MessagesIn(a, b) + b
  {
  }

  lemma LocalIsRest(n: nat)
    ensures After(n).localCount == n - Flushed(n)
  {
  }

  /**
    So when a write fails, the shared count agrees with the messages written exactly when those were a
    multiple of 1024 and a batch is smaller than that.
   */
  lemma CountAfterFailureIff(written: nat, perTick: nat)
    ensures Flushed(written + perTick) == written <==> written % PUBLISH_BATCH == 0 && perTick < PUBLISH_BATCH
  {
  }

  /** It may come out too high as well as too low. */
  lemma CountAfterFailureIsOff()
    ensures Flushed(0 + 1024) == 1024 && Flushed(1000 + 20) == 0
  {
  }

  /**
    drainServer and drainPings: for at most so many rounds, frames are read and dropped, and each Ping is
    answered with a Pong, unless its write fails.
   */
  method DrainServer(input: seq<byte>, rounds: nat, net: Net) returns (out: seq<byte>, frames: nat, lost: nat)
    ensures frames == if rounds < |Parse(input)| then rounds else |Parse(input)|
    ensures lost == Failures(net, Pings(Parse(input)[..frames]))
    ensures out == EncodeAll(Pongs(Pings(Parse(input)[..frames]) - lost))
  {
    hide HasFrame, First, Rest, Frames.Encode, Parse, EncodeAll, Pings, Pongs;
    NoPings();
    out, frames, lost := [], 0, 0;
    ghost var read: seq<Frame> := [];
    var rest, writes := input, 0;
    while frames < rounds
      invariant frames <= rounds && |read| == frames && read + Parse(rest) == Parse(input)
      invariant writes == Pings(read) && lost == Failures(net, writes) && out == EncodeAll(Pongs(Pings(read) - lost))
    {
      ghost var before := rest;
      ParseOnce(before);
      var discard := new byte[0];
      var ok, hdr, bodyLen;
      ok, hdr, bodyLen, rest, discard := ReadFrame(rest, discard, 0);
      if !ok {
        return;
      }
      HeaderOp(before);
      PingsSnoc(read, First(before));
      Assoc(read, [First(before)], Parse(rest));
      if hdr[0] == OP_PING {
        var written := net(writes);
        writes := writes + 1;
        if written {
          PongBytes();
          OneMorePong(writes - 1 - lost);
          out := out + PONG_BYTES;
        } else {
          lost := lost + 1;
        }
      }
      read := read + [First(before)];
      frames := frames + 1;
    }
  }

  lemma NoPings()
    ensures Pings([]) == 0 && EncodeAll(Pongs(0)) == []
  {
  }

  lemma OneMorePong(n: nat)
    ensures EncodeAll(Pongs(n + 1)) == EncodeAll(Pongs(n)) + Frames.Encode(PONG_FRAME)
  {
    EncodeAllSnoc(Pongs(n), PONG_FRAME);
  }

  lemma HeaderOp(s: seq<byte>)
    requires HasFrame(s)
    ensures HEADER_LEN <= |s| && s[..HEADER_LEN][0] == First(s).op
  {
  }
}
