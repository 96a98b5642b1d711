/**
  The binary frame format: a 9-byte header
    op (1) | subject length (2, LE) | reply length (2, LE) | payload length (4, LE)
  followed by the subject, reply and payload bytes.
 */
module Frames {
  import opened Bytes
  import opened Wrappers

  datatype Frame = Frame(op: byte, subject: GoString, reply: GoString, payload: seq<byte>)

  const HEADER_LEN := 9
  const OP_PING: byte := 0x01
  const OP_PONG: byte := 0x02
  const OP_MSG: byte := 0x03
  const OP_HMSG: byte := 0x04
  const OP_SUB: byte := 0x05
  const OP_UNSUB: byte := 0x06

  /** The three lengths fit the header's u16, u16 and u32 fields. */
  predicate InRange(f: Frame) {
    |f.subject| < 0x1_0000 && |f.reply| < 0x1_0000 && |f.payload| < 0x1_0000_0000
  }

  ghost predicate AllInRange(fs: seq<Frame>) {
    forall f <- fs :: InRange(f)
  }

  function Header(op: byte, subjLen: nat, replLen: nat, payLen: nat): (h: seq<byte>)
    ensures |h| == HEADER_LEN
  {
    [op] + PutLE(subjLen, 2) + PutLE(replLen, 2) + PutLE(payLen, 4)
  }

  /** The bytes the encoders write; over-long lengths are truncated, as in the source. */
  function Encode(f: Frame): (bs: seq<byte>)
    ensures |bs| == HEADER_LEN + |f.subject| + |f.reply| + |f.payload|
  {
    Header(f.op, |f.subject|, |f.reply|, |f.payload|) + f.subject + f.reply + f.payload
  }

  function EncodeAll(fs: seq<Frame>): seq<byte> {
    if fs == [] then [] else Encode(fs[0]) + EncodeAll(fs[1..])
  }

  // ---- Reading: a header, then a body of the three announced lengths ----

  function SubjLen(s: seq<byte>): nat requires HEADER_LEN <= |s| { GetLE(s[1..3]) }
  function ReplLen(s: seq<byte>): nat requires HEADER_LEN <= |s| { GetLE(s[3..5]) }
  function PayLen(s: seq<byte>): nat requires HEADER_LEN <= |s| { GetLE(s[5..9]) }

  function BodyLen(s: seq<byte>): nat
    requires HEADER_LEN <= |s|
  {
    SubjLen(s) + ReplLen(s) + PayLen(s)
  }

  /** Both ReadFull calls succeed. */
  predicate HasFrame(s: seq<byte>) {
    HEADER_LEN <= |s| && HEADER_LEN + BodyLen(s) <= |s|
  }

  function First(s: seq<byte>): Frame
    requires HasFrame(s)
  {
    var body := s[HEADER_LEN..HEADER_LEN + BodyLen(s)];
    Frame(s[0], body[..SubjLen(s)], body[SubjLen(s)..SubjLen(s) + ReplLen(s)], body[SubjLen(s) + ReplLen(s)..])
  }

  function Rest(s: seq<byte>): seq<byte>
    requires HasFrame(s)
  {
    s[HEADER_LEN + BodyLen(s)..]
  }

  /** Every whole frame of a byte stream, in order. */
  function Parse(s: seq<byte>): seq<Frame>
    decreases |s|
  {
    if HasFrame(s) then [First(s)] + Parse(Rest(s)) else []
  }

  lemma ParseOnce(s: seq<byte>)
    ensures Parse(s) == if HasFrame(s) then [First(s)] + Parse(Rest(s)) else []
    ensures !HasFrame([]) && (HasFrame(s) ==> |Rest(s)| < |s|)
  {
  }

  // ---- Round trips ----

  lemma HeaderBytes(f: Frame, tail: seq<byte>)
    ensures var s := Encode(f) + tail;
            && s[0] == f.op && s[1..3] == PutLE(|f.subject|, 2)
            && s[3..5] == PutLE(|f.reply|, 2) && s[5..9] == PutLE(|f.payload|, 4)
            && s[9..] == f.subject + f.reply + f.payload + tail
  {
    var a, b, c := PutLE(|f.subject|, 2), PutLE(|f.reply|, 2), PutLE(|f.payload|, 4);
    Cuts(f.op, a, b, c, f.subject + f.reply + f.payload + tail);
    assert Encode(f) + tail == [f.op] + a + b + c + (f.subject + f.reply + f.payload + tail);
  }

  lemma TwoBytes(n: nat)
    ensures PutLE(n, 2) == [n % 256, n / 256 % 256]
  {
    assert PutLE(n / 256, 1) == [n / 256 % 256] + PutLE(n / 256 / 256, 0);
  }

  lemma FourBytes(n: nat)
    ensures PutLE(n, 4) == [n % 256, n / 0x100 % 256, n / 0x1_0000 % 256, n / 0x100_0000 % 256]
  {
    TwoBytes(n / 0x1_0000);
    assert PutLE(n / 256, 3) == [n / 256 % 256] + PutLE(n / 256 / 256, 2);
  }

  lemma HeaderIs(op: byte, a: nat, b: nat, c: nat)
    requires a < 0x1_0000 && b < 0x1_0000 && c < 0x1_0000_0000
    ensures Header(op, a, b, c)
            == [op, a % 256, a / 256, b % 256, b / 256,
                c % 256, c / 0x100 % 256, c / 0x1_0000 % 256, c / 0x100_0000]
  {
    hide PutLE;
    TwoBytes(a);
    TwoBytes(b);
    FourBytes(c);
  }

  /** The bytes of a frame, one by one. */
  lemma EncodedBytes(f: Frame)
    requires InRange(f)
    ensures var (a, b, c) := (|f.subject|, |f.reply|, |f.payload|);
            Encode(f) == [f.op, a % 256, a / 256, b % 256, b / 256,
                          c % 256, c / 0x100 % 256, c / 0x1_0000 % 256, c / 0x100_0000]
                         + f.subject + f.reply + f.payload
  {
    hide Header;
    HeaderIs(f.op, |f.subject|, |f.reply|, |f.payload|);
  }

  lemma Cuts(op: byte, a: seq<byte>, b: seq<byte>, c: seq<byte>, rest: seq<byte>)
    requires |a| == 2 && |b| == 2 && |c| == 4
    ensures var s := [op] + a + b + c + rest;
            s[0] == op && s[1..3] == a && s[3..5] == b && s[5..9] == c && s[9..] == rest
  {
  }

  lemma HeaderLens(f: Frame, tail: seq<byte>)
    requires InRange(f)
    ensures var s := Encode(f) + tail;
            SubjLen(s) == |f.subject| && ReplLen(s) == |f.reply| && PayLen(s) == |f.payload|
  {
    HeaderBytes(f, tail);
    FieldLens(Encode(f) + tail, |f.subject|, |f.reply|, |f.payload|);
  }

  lemma FieldLens(s: seq<byte>, a: nat, b: nat, c: nat)
    requires HEADER_LEN <= |s| && s[1..3] == PutLE(a, 2) && s[3..5] == PutLE(b, 2) && s[5..9] == PutLE(c, 4)
    requires a < 0x1_0000 && b < 0x1_0000 && c < 0x1_0000_0000
    ensures SubjLen(s) == a && ReplLen(s) == b && PayLen(s) == c
  {
    PowValues();
    GetPutExact(s[1..3], a, 2);
    GetPutExact(s[3..5], b, 2);
    GetPutExact(s[5..9], c, 4);
  }

  lemma FirstOfParts(s: seq<byte>, f: Frame, tail: seq<byte>)
    requires HEADER_LEN <= |s| && s[0] == f.op
    requires SubjLen(s) == |f.subject| && ReplLen(s) == |f.reply| && PayLen(s) == |f.payload|
    requires s[9..] == f.subject + f.reply + f.payload + tail
    ensures HasFrame(s) && First(s) == f && Rest(s) == tail
  {
    var n := BodyLen(s);
    var body := f.subject + f.reply + f.payload;
    assert s[9..9 + n] == s[9..][..n] == body;
    assert Rest(s) == s[9..][n..] == tail;
    assert body[..|f.subject|] == f.subject;
    assert body[|f.subject|..|f.subject| + |f.reply|] == f.reply;
    assert body[|f.subject| + |f.reply|..] == f.payload;
  }

  /** The frame at the front of a stream is recovered, and the reader stops exactly behind it. */
  lemma FirstOfEncode(f: Frame, tail: seq<byte>)
    requires InRange(f)
    ensures var s := Encode(f) + tail; HasFrame(s) && First(s) == f && Rest(s) == tail
  {
    HeaderBytes(f, tail);
    HeaderLens(f, tail);
    FirstOfParts(Encode(f) + tail, f, tail);
  }

  /** A parsed frame always has lengths that fit its header. */
  lemma FirstInRange(s: seq<byte>)
    requires HasFrame(s)
    ensures InRange(First(s))
  {
    PowValues();
  }

  /** The encoders' length truncation matters exactly for frames whose lengths do not fit. */
  lemma RoundTripIffInRange(f: Frame)
    ensures Parse(Encode(f)) == [f] <==> InRange(f)
  {
    assert Encode(f) + [] == Encode(f);
    if InRange(f) {
      FirstOfEncode(f, []);
    } else if HasFrame(Encode(f)) {
      FirstInRange(Encode(f));
      assert Parse(Encode(f))[0] == First(Encode(f));
    }
  }

  /** Any list of in-range frames is read back, whatever incomplete bytes follow it. */
  lemma {:induction false} ParseEncodeAll(fs: seq<Frame>, tail: seq<byte>)
    requires AllInRange(fs) && !HasFrame(tail)
    ensures Parse(EncodeAll(fs) + tail) == fs
  {
    if fs == [] {
      assert EncodeAll(fs) + tail == tail;
    } else {
      var more := EncodeAll(fs[1..]) + tail;
      assert EncodeAll(fs) + tail == Encode(fs[0]) + more;
      FirstOfEncode(fs[0], more);
      ParseEncodeAll(fs[1..], tail);
    }
  }

  lemma {:induction false} EncodeAllAppend(fs: seq<Frame>, gs: seq<Frame>)
    ensures EncodeAll(fs + gs) == EncodeAll(fs) + EncodeAll(gs)
  {
    if fs == [] {
      assert fs + gs == gs;
      assert EncodeAll(fs) + EncodeAll(gs) == EncodeAll(gs);
    } else {
      var all := fs + gs;
      assert all[0] == fs[0] && all[1..] == fs[1..] + gs;
      EncodeAllAppend(fs[1..], gs);
      Assoc(Encode(fs[0]), EncodeAll(fs[1..]), EncodeAll(gs));
    }
  }

  lemma EncodeAllSnoc(fs: seq<Frame>, f: Frame)
    ensures EncodeAll(fs + [f]) == EncodeAll(fs) + Encode(f)
  {
    EncodeAllAppend(fs, [f]);
    assert EncodeAll([f]) == Encode(f) + [] == Encode(f);
  }

  /** A strict prefix of one encoded frame holds no whole frame. */
  lemma PrefixHasNoFrame(f: Frame, n: nat)
    requires InRange(f) && n < |Encode(f)|
    ensures !HasFrame(Encode(f)[..n])
  {
    var s, t := Encode(f), Encode(f)[..n];
    assert s + [] == s;
    FirstOfEncode(f, []);
    if HEADER_LEN <= n {
      assert t[1..3] == s[1..3] && t[3..5] == s[3..5] && t[5..9] == s[5..9];
      assert BodyLen(t) == BodyLen(s) == |s| - HEADER_LEN;
    }
  }

  /** A stream cut after n bytes yields exactly the k frames that fit into n bytes. */
  lemma {:induction false} ParseTruncated(fs: seq<Frame>, n: nat) returns (k: nat)
    requires AllInRange(fs) && n <= |EncodeAll(fs)|
    ensures k <= |fs| && |EncodeAll(fs[..k])| <= n
    ensures k < |fs| ==> n < |EncodeAll(fs[..k + 1])|
    ensures Parse(EncodeAll(fs)[..n]) == fs[..k]
  {
    hide Encode, First, Rest, BodyLen;
    if fs == [] {
      k := 0;
    } else if n < |Encode(fs[0])| {
      k := 0;
      PrefixHasNoFrame(fs[0], n);
      assert EncodeAll(fs)[..n] == Encode(fs[0])[..n];
      EncodeTake(fs, 0);
      assert fs[..0] == [];
    } else {
      var m := n - |Encode(fs[0])|;
      var j := ParseTruncated(fs[1..], m);
      k := j + 1;
      ParseCons(fs, n, m);
      EncodeTake(fs, j);
      assert fs[..k] == [fs[0]] + fs[1..][..j];
      if k < |fs| {
        EncodeTake(fs, k);
      }
    }
  }

  lemma ParseCons(fs: seq<Frame>, n: nat, m: nat)
    requires fs != [] && InRange(fs[0]) && n == |Encode(fs[0])| + m && n <= |EncodeAll(fs)|
    ensures Parse(EncodeAll(fs)[..n]) == [fs[0]] + Parse(EncodeAll(fs[1..])[..m])
  {
    var e, more := Encode(fs[0]), EncodeAll(fs[1..]);
    assert EncodeAll(fs) == e + more;
    assert (e + more)[..n] == e + more[..m];
    FirstOfEncode(fs[0], more[..m]);
  }

  lemma EncodeTake(fs: seq<Frame>, j: nat)
    requires j < |fs|
    ensures EncodeAll(fs[..j + 1]) == Encode(fs[0]) + EncodeAll(fs[1..][..j])
  {
    assert fs[..j + 1][1..] == fs[1..][..j];
  }

  /** Nothing is invented or lost: any stream is the encoding of its frames plus an incomplete rest. */
  lemma {:induction false} EncodeParse(s: seq<byte>) returns (tail: seq<byte>)
    ensures s == EncodeAll(Parse(s)) + tail && !HasFrame(tail) && AllInRange(Parse(s))
    decreases |s|
  {
    if !HasFrame(s) {
      tail := s;
    } else {
      tail := EncodeParse(Rest(s));
      FirstInRange(s);
      EncodeFirst(s);
      assert Parse(s)[1..] == Parse(Rest(s));
      assert s == Encode(First(s)) + (EncodeAll(Parse(Rest(s))) + tail);
    }
  }

  lemma EncodeFirst(s: seq<byte>)
    requires HasFrame(s)
    ensures s == Encode(First(s)) + Rest(s)
  {
    var f := First(s);
    var a, b, c, n := s[1..3], s[3..5], s[5..9], BodyLen(s);
    PutGet(a);
    PutGet(b);
    PutGet(c);
    BodySplit(s);
    CutHeader(s);
    CutThree(s, 9, 9 + n);
    assert Header(f.op, |f.subject|, |f.reply|, |f.payload|) == s[..9];
    assert Encode(f) == s[..9] + (f.subject + f.reply + f.payload);
  }

  lemma CutThree(s: seq<byte>, i: nat, j: nat)
    requires i <= j <= |s|
    ensures s == s[..i] + s[i..j] + s[j..]
  {
  }

  lemma BodySplit(s: seq<byte>)
    requires HasFrame(s)
    ensures var f := First(s);
            && f.subject + f.reply + f.payload == s[9..9 + BodyLen(s)] && f.op == s[0]
            && |f.subject| == SubjLen(s) && |f.reply| == ReplLen(s) && |f.payload| == PayLen(s)
  {
  }

  lemma CutHeader(s: seq<byte>)
    requires 9 <= |s|
    ensures s[..9] == [s[0]] + s[1..3] + s[3..5] + s[5..9]
  {
  }
}
