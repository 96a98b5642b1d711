/** market-sub-bin: one connection's subscriptions, and the loop that counts and samples what arrives on it. */
module SubBin {
  import opened Broker
  import opened Bytes
  import opened Encoders
  import opened Frames
  import opened Market
  import opened Msg
  import opened Seqs
  import opened Transport
  import opened Wrappers

  // ---- Subscribing ----

  /** The Sub frames of the first k subjects; SIDs count on from a base that depends on the connection. */
  function SubFrames(subjects: seq<GoString>, base: nat, k: nat): (fs: seq<Frame>)
    requires k <= |subjects|
    ensures |fs| == k
  {
    if k == 0 then [] else SubFrames(subjects, base, k - 1) + [SubFrame(subjects[k - 1], NthSID(base + k - 1))]
  }

  lemma {:induction false} SubFramesInRange(subjects: seq<GoString>, base: nat, k: nat)
    requires k <= |subjects| && forall x <- subjects :: |x| < 0x1_0000
    ensures AllInRange(SubFrames(subjects, base, k))
  {
    if k > 0 {
      SubFramesInRange(subjects, base, k - 1);
      assert subjects[k - 1] in subjects;
    }
  }

  /** The SIDs of the first k subjects. */
  ghost function Sids(base: nat, k: nat): set<nat> {
    if k == 0 then {} else Sids(base, k - 1) + {NthSID(base + k - 1)}
  }

  lemma {:induction false} NextSidIsFresh(base: nat, j: nat, k: nat)
    requires j <= k < SID_LIMIT
    ensures NthSID(base + k) !in Sids(base, j)
  {
    if j > 0 {
      NextSidIsFresh(base, j - 1, k);
      SIDsCollide(base + j - 1, base + k);
    }
  }

  /** The broker's table after the first k subjects. */
  function TableOf(subjects: seq<GoString>, base: nat, k: nat): Table
    requires k <= |subjects|
  {
    Replay(SubFrames(subjects, base, k))
  }

  lemma TableStep(subjects: seq<GoString>, base: nat, k: nat)
    requires k < |subjects|
    ensures TableOf(subjects, base, k + 1) == TableOf(subjects, base, k)[NthSID(base + k) := subjects[k]]
    ensures TableOf(subjects, base, 0) == map[]
  {
    NextSID(base + k);
    hide Replay, NthSID, SubFrame;
    SubMeaning(SubFrames(subjects, base, k), subjects[k], NthSID(base + k));
    NothingReplayed();
  }

  lemma NothingReplayed()
    ensures Replay([]) == map[]
  {
  }

  lemma {:induction false} TableSids(subjects: seq<GoString>, base: nat, k: nat)
    requires k <= |subjects|
    ensures forall sid <- TableOf(subjects, base, k) :: sid in Sids(base, k)
  {
    if k > 0 {
      TableSids(subjects, base, k - 1);
      hide TableOf, NthSID;
      TableStep(subjects, base, k - 1);
    } else {
      NothingReplayed();
    }
  }

  /**
    Replaying the Sub frames gives the broker each subject under exactly one SID, as long as a connection
    has no more than 2^32 of them.
   */
  lemma {:induction false} SubFramesExact(subjects: seq<GoString>, base: nat, k: nat)
    requires k <= |subjects| <= SID_LIMIT && NoDup(subjects)
    ensures Exact(TableOf(subjects, base, k), Elements(subjects[..k]))
  {
    if k == 0 {
      NothingReplayed();
      assert Elements(subjects[..0]) == {};
    } else {
      var x, sid := subjects[k - 1], NthSID(base + k - 1);
      SubFramesExact(subjects, base, k - 1);
      TableSids(subjects, base, k - 1);
      NextSidIsFresh(base, k - 1, k - 1);
      hide TableOf, NthSID, Exact, Sids;
      TableStep(subjects, base, k - 1);
      assert Elements(subjects[..k]) == Elements(subjects[..k - 1]) + {x};
      SubscribeExact(TableOf(subjects, base, k - 1), Elements(subjects[..k - 1]), sid, x);
    }
  }

  /** Subscribes to each subject in turn, giving up at the first failed write. */
  method SubscribeAll(subjects: seq<GoString>, connIdx: nat, net: Net) returns (ok: bool, out: seq<byte>, ghost k: nat)
    ensures k <= |subjects| && ok == (k == |subjects|)
    ensures (forall i :: 0 <= i < k ==> net(i)) && (!ok ==> !net(k))
    ensures out == EncodeAll(SubFrames(subjects, connIdx * |subjects|, k))
    ensures ok && NoDup(subjects) && |subjects| <= SID_LIMIT && (forall x <- subjects :: |x| < 0x1_0000) ==>
              Exact(WireTable(out), Elements(subjects))
  {
    hide Frames.Encode, SubFrame, Replay, Exact, Parse;
    var base := connIdx * |subjects|;
    ok, out, k := true, [], 0;
    var i := 0;
    while i < |subjects| && ok
      invariant 0 <= i <= |subjects| && (ok ==> k == i) && (!ok ==> k == i - 1)
      invariant (forall j :: 0 <= j < k ==> net(j)) && (!ok ==> !net(k))
      invariant out == EncodeAll(SubFrames(subjects, base, k))
    {
      var sid := (base + i + 1) % SID_LIMIT;
      var frame := SubFrameBytes(subjects[i], sid);
      ok := net(i);
      if ok {
        EncodeAllSnoc(SubFrames(subjects, base, k), SubFrame(subjects[i], sid));
        out, k := out + frame[..], k + 1;
      }
      i := i + 1;
    }
    if ok && NoDup(subjects) && |subjects| <= SID_LIMIT && forall x <- subjects :: |x| < 0x1_0000 {
      SubFramesInRange(subjects, base, k);
      WireTableOfFrames(SubFrames(subjects, base, k));
      SubFramesExact(subjects, base, k);
      assert subjects[..k] == subjects;
    }
  }

  // ---- Receiving ----

  /** The message frames among those read. */
  function Messages(fs: seq<Frame>): seq<Frame> {
    if fs == [] then []
    else
      var front, f := Messages(fs[..|fs| - 1]), fs[|fs| - 1];
      if IsMessage(f) then front + [f] else front
  }

  /** They are exactly the frames with op code 3 or 4, each as often as it was read. */
  lemma {:induction false} MessagesAre(fs: seq<Frame>, f: Frame)
    ensures multiset(Messages(fs))[f] == if f.op in {3, 4} then multiset(fs)[f] else 0
  {
    if fs != [] {
      MessagesAre(fs[..|fs| - 1], f);
      assert fs == fs[..|fs| - 1] + [fs[|fs| - 1]];
    }
  }

  const RECEIVE_BATCH: nat := 512

  /** Whether the n-th message (from 1) is sampled: the local count it is compared with restarts at every flush. */
  predicate Sampled(n: nat) {
    n % RECEIVE_BATCH % 100 == 0
  }

  function SamplesOf(n: nat): nat {
    if n == 0 then 0 else SamplesOf(n - 1) + if Sampled(n) then 1 else 0
  }

  /** The latencies recorded from a list of messages, each with the clock reading it would be decoded at. */
  function Latencies(msgs: seq<Frame>, clocks: seq<int64>): seq<int64>
    requires |msgs| == |clocks|
  {
    if msgs == [] then []
    else
      var k := |msgs| - 1;
      Latencies(msgs[..k], clocks[..k]) + if Sampled(|msgs|) then LatencyOf(msgs[k].payload, clocks[k]) else []
  }

  function LatencyOf(payload: seq<byte>, now: int64): (l: seq<int64>)
    ensures |l| <= 1
  {
    match Decode(payload, now)
    case None => []
    case Some(d) => if d.latencyNs >= 0 then [d.latencyNs] else []
  }

  /** Of a message that was sent this is the time between the two clock readings, unless the clock went back. */
  lemma LatencyOfEncoded(buf: seq<byte>, sentNs: int64, seqNo: uint64, now: int64)
    requires MIN_SIZE <= |buf|
    ensures var d := ToInt64(now - sentNs);
            LatencyOf(Encoded(buf, sentNs, seqNo), now) == if d < 0 then [] else [d]
  {
    hide Encoded, Decode;
    DecodeEncoded(buf, sentNs, seqNo, now);
  }

  /** No latency is recorded that is negative, and none of a payload that is too short. */
  lemma LatencyRange(payload: seq<byte>, now: int64)
    ensures |payload| < MIN_SIZE ==> LatencyOf(payload, now) == []
    ensures forall l <- LatencyOf(payload, now) :: 0 <= l
  {
  }

  lemma LatenciesSnoc(msgs: seq<Frame>, clocks: seq<int64>, f: Frame, now: int64)
    requires |msgs| == |clocks|
    ensures Latencies(msgs + [f], clocks + [now])
            == Latencies(msgs, clocks) + if Sampled(|msgs| + 1) then LatencyOf(f.payload, now) else []
  {
    assert (msgs + [f])[..|msgs|] == msgs && (clocks + [now])[..|msgs|] == clocks;
  }

  lemma {:induction false} LatenciesAtMost(msgs: seq<Frame>, clocks: seq<int64>)
    requires |msgs| == |clocks|
    ensures |Latencies(msgs, clocks)| <= SamplesOf(|msgs|)
    ensures forall l <- Latencies(msgs, clocks) :: 0 <= l
  {
    hide LatencyOf;
    if msgs != [] {
      LatencyRange(msgs[|msgs| - 1].payload, clocks[|msgs| - 1]);
      LatenciesAtMost(msgs[..|msgs| - 1], clocks[..|msgs| - 1]);
    }
  }

  /**
    The sampling is not one in a hundred: the count is looked at after it may have been reset, so every full 512
    messages give six samples, and those beyond one for every hundred.
   */
  lemma {:induction false} SamplingLaw(n: nat)
    ensures SamplesOf(n) == 6 * (n / RECEIVE_BATCH) + n % RECEIVE_BATCH / 100
  {
    if n > 0 {
      SamplingLaw(n - 1);
      DivModNext(n - 1, RECEIVE_BATCH);
    }
  }

  lemma HundredsOf(n: nat, q: nat, a: nat, b: nat)
    requires n == 512 * q + 100 * a + b && b < 100
    ensures n / 100 == 5 * q + a + (12 * q + b) / 100 && n % 100 == (12 * q + b) % 100
  {
    var c := 12 * q + b;
    ModUnique(n, 100, 5 * q + a + c / 100, c % 100);
  }

  lemma DozensIff(q: nat, b: nat)
    requires b < 100
    ensures q <= (12 * q + b) / 100 <==> q == 0 || (q == 1 && b >= 88)
    ensures (12 * q + b) / 100 <= q
    ensures q == 1 ==> ((12 * q + b) % 100 == if b >= 88 then b - 88 else 12 + b)
  {
    ModUnique(12 * q + b, 100, (12 * q + b) / 100, (12 * q + b) % 100);
  }

  /**
    One in a hundred is what comes out, exactly before the first flush and, afterwards, only in the first
    dozen of each hundred from 600 to 1011; otherwise there are more samples than that, never fewer.
   */
  lemma OneInAHundredIff(n: nat)
    ensures SamplesOf(n) == n / 100 <==> n < 512 || (600 <= n < 1012 && n % 100 < 12)
    ensures n / 100 <= SamplesOf(n)
  {
    SamplingLaw(n);
    var q, r := n / RECEIVE_BATCH, n % RECEIVE_BATCH;
    var a, b := r / 100, r % 100;
    HundredsOf(n, q, a, b);
    DozensIff(q, b);
    Decompose(n, q, a, b);
    hide SamplesOf;
  }

  /** Within the second batch of 512, the last dozen of each hundred is the first dozen of the next. */
  lemma Decompose(n: nat, q: nat, a: nat, b: nat)
    requires n == 512 * q + 100 * a + b && b < 100 && 100 * a + b < 512
    ensures q == 0 <==> n < 512
    ensures q == 1 && b >= 88 ==> 600 <= n < 1012
    ensures 600 <= n < 1012 ==> q == 1
  {
  }

  /** What one received message does: it is counted, perhaps flushed, and then perhaps sampled. */
  method OnMessage(payload: seq<byte>, local0: nat, received: Counter, lats0: seq<int64>, ghost n: nat)
    returns (local: nat, lats: seq<int64>, ghost now: int64)
    requires local0 == n % RECEIVE_BATCH
    modifies received
    ensures local == (n + 1) % RECEIVE_BATCH && received.value + local == old(received.value) + local0 + 1
    ensures lats == lats0 + if Sampled(n + 1) then LatencyOf(payload, now) else []
  {
    DivModNext(n, RECEIVE_BATCH);
    hide Decode;
    local, lats, now := local0 + 1, lats0, 0;
    if local == RECEIVE_BATCH {
      received.Add(local);
      local := 0;
    }
    if local % 100 == 0 {
      var clock: int64 := *;
      now := clock;
      var decoded := Decode(payload, clock);
      if decoded.Some? && decoded.value.latencyNs >= 0 {
        lats := lats + [decoded.value.latencyNs];
      }
    }
  }

  /**
    The receive loop: every message frame of the stream is counted, whatever its subject, no matter where the
    stream breaks off; a Pong is attempted for each Ping; and the latencies are those of the sampled messages.
   */
  method Receive(input: seq<byte>, received: Counter) returns (lats: seq<int64>, pongs: nat, ghost clocks: seq<int64>)
    modifies received
    ensures received.value == old(received.value) + |Messages(Parse(input))|
    ensures pongs == Pings(Parse(input))
    ensures |lats| <= SamplesOf(|Messages(Parse(input))|) && forall l <- lats :: 0 <= l
    ensures |clocks| == |Messages(Parse(input))| && lats == Latencies(Messages(Parse(input)), clocks)
  {
    hide HasFrame, First, Rest, Sampled, LatencyOf, Latencies, GetLE, BodyLen;
    var body := new byte[512];
    var local, rest, ok := 0, input, true;
    ghost var read: seq<Frame> := [];
    lats, pongs, clocks := [], 0, [];
    NoLatencies();
    while ok
      invariant ok ==> read + Parse(rest) == Parse(input)
      invariant !ok ==> read == Parse(input)
      invariant pongs == Pings(read)
      invariant fresh(body) && local == |Messages(read)| % RECEIVE_BATCH
      invariant received.value + local == old(received.value) + |Messages(read)|
      invariant |clocks| == |Messages(read)| && lats == Latencies(Messages(read), clocks)
      decreases ok, |rest|
    {
      ghost var before := rest;
      var hdr, bodyLen;
      ok, hdr, bodyLen, rest, body := ReadFrame(rest, body, 0);
      if ok {
        HeaderParts(before, hdr, body[..bodyLen]);
        ghost var f := First(before);
        Assoc(read, [f], Parse(rest));
        assert (read + [f])[..|read|] == read;
        PingsSnoc(read, f);
        if hdr[0] == OP_PING {
          pongs := pongs + 1;
        } else if hdr[0] == OP_MSG || hdr[0] == OP_HMSG {
          var subjLen, replLen := GetLE(hdr[1..3]), GetLE(hdr[3..5]);
          assert body[subjLen + replLen..bodyLen] == body[..bodyLen][subjLen + replLen..];
          ghost var now;
          ghost var msgs, clocks0 := Messages(read), clocks;
          local, lats, now := OnMessage(body[subjLen + replLen..bodyLen], local, received, lats, |msgs|);
          LatenciesSnoc(msgs, clocks0, f, now);
          clocks := clocks + [now];
        }
        read := read + [f];
      }
    }
    if local > 0 {
      received.Add(local);
    }
    LatenciesAtMost(Messages(read), clocks);
  }

  lemma NoLatencies()
    ensures Latencies([], []) == []
  {
  }

  lemma HeaderParts(s: seq<byte>, hdr: seq<byte>, body: seq<byte>)
    requires HasFrame(s) && hdr == s[..HEADER_LEN] && body == s[HEADER_LEN..][..BodyLen(s)]
    ensures |hdr| == HEADER_LEN && hdr[0] == First(s).op && |Rest(s)| < |s|
    ensures GetLE(hdr[1..3]) + GetLE(hdr[3..5]) <= |body|
    ensures First(s).payload == body[GetLE(hdr[1..3]) + GetLE(hdr[3..5])..]
  {
    SameHeader(s);
    SameBody(s, body);
  }
}
