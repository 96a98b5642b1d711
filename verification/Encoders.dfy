/** The routines that lay frames out in byte buffers. */
module Encoders {
  import opened Bytes
  import opened Frames
  import opened Broker

  /** Writes f's bytes at b[at..] and nothing else, whatever stale bytes were there. */
  method PutFrame(b: array<byte>, at: nat, f: Frame)
    requires at + |Encode(f)| <= b.Length
    modifies b
    ensures b[..] == old(b[..at]) + Encode(f) + old(b[at + |Encode(f)|..])
  {
    var s, r := |f.subject|, |f.reply|;
    ghost var before, header := b[..at], Header(f.op, s, r, |f.payload|);
    PutHeader(b, at, f.op, s, r, |f.payload|, before);
    CopyAfter(b, at + 9, f.subject, before, header);
    CopyAfter(b, at + 9 + s, f.reply, before, header + f.subject);
    CopyAfter(b, at + 9 + s + r, f.payload, before, header + f.subject + f.reply);
    assert b[..] == b[..at + |Encode(f)|] + b[at + |Encode(f)|..];
  }

  method PutHeader(b: array<byte>, at: nat, op: byte, s: nat, r: nat, p: nat, ghost before: seq<byte>)
    requires at + HEADER_LEN <= b.Length && b[..at] == before
    modifies b
    ensures b[..at + HEADER_LEN] == before + Header(op, s, r, p)
    ensures forall i | at + HEADER_LEN <= i < b.Length :: b[i] == old(b[i])
  {
    b[at] := op;
    assert b[..at + 1] == before + [op];
    PutUint(b, at + 1, s, 2, before, [op]);
    PutUint(b, at + 3, r, 2, before, [op] + PutLE(s, 2));
    PutUint(b, at + 5, p, 4, before, [op] + PutLE(s, 2) + PutLE(r, 2));
  }

  /** binary.LittleEndian.PutUintNN of a truncating conversion, just behind what is already written. */
  method PutUint(b: array<byte>, at: nat, n: nat, width: nat, ghost before: seq<byte>, ghost done: seq<byte>)
    requires at + width <= b.Length && |before| + |done| == at && b[..at] == before + done
    modifies b
    ensures b[..at + width] == before + (done + PutLE(n, width))
    ensures forall i | at + width <= i < b.Length :: b[i] == old(b[i])
  {
    CopyAfter(b, at, PutLE(n, width), before, done);
  }

  method CopyAfter(b: array<byte>, at: nat, src: seq<byte>, ghost before: seq<byte>, ghost done: seq<byte>)
    requires at + |src| <= b.Length && |before| + |done| == at && b[..at] == before + done
    modifies b
    ensures b[..at + |src|] == before + (done + src)
    ensures forall i | at + |src| <= i < b.Length :: b[i] == old(b[i])
  {
    Copy(b, at, src);
    assert b[..at + |src|] == b[..][..at + |src|];
    assert forall i | at + |src| <= i < b.Length :: b[i] == b[..][i];
  }

  method SubFrameBytes(subject: GoString, sid: nat) returns (frame: array<byte>)
    ensures fresh(frame) && frame[..] == Encode(SubFrame(subject, sid))
  {
    frame := new byte[HEADER_LEN + |subject| + 4];
    PutFrame(frame, 0, SubFrame(subject, sid));
  }

  method UnsubFrameBytes(sid: nat) returns (frame: array<byte>)
    ensures fresh(frame) && frame[..] == Encode(UnsubFrame(sid))
  {
    frame := new byte[HEADER_LEN + 4];
    PutFrame(frame, 0, UnsubFrame(sid));
  }

  /** The constant nine bytes sent in answer to a Ping. */
  const PONG_BYTES: seq<byte> := [0x02, 0, 0, 0, 0, 0, 0, 0, 0]

  lemma PongBytes()
    ensures PONG_BYTES == Encode(PONG_FRAME)
  {
    assert PutLE(0, 2) == [0] + PutLE(0, 1) == [0, 0];
    assert PutLE(0, 4) == [0] + ([0] + PutLE(0, 2)) == [0, 0, 0, 0];
  }

  /** A Go byte slice used as an append buffer: `len` bytes of contents in an array of larger capacity. */
  class Buffer {
    var data: array<byte>
    var len: nat

    ghost predicate Valid()
      reads this
    {
      len <= data.Length
    }

    ghost function Contents(): seq<byte>
      requires Valid()
      reads this, data
    {
      data[..len]
    }

    constructor (capacity: nat)
      ensures Valid() && Contents() == [] && fresh(data)
    {
      data := new byte[capacity];
      len := 0;
    }

    /** buf = buf[:0]: the old bytes stay in the array behind the new length. */
    method Reset()
      requires Valid()
      modifies this`len
      ensures Valid() && Contents() == []
    {
      len := 0;
    }

    method Reallocate(capacity: nat)
      requires Valid() && len <= capacity
      modifies this`data
      ensures Valid() && fresh(data) && data.Length == capacity && Contents() == old(Contents())
    {
      var next := new byte[capacity];
      Copy(next, 0, data[..len]);
      data := next;
      assert data[..len] == data[..][..len];
    }

    method Place(subject: GoString, payload: seq<byte>)
      requires Valid() && len + HEADER_LEN + |subject| + |payload| <= data.Length
      modifies this`len, data
      ensures Valid() && Contents() == old(Contents()) + Encode(MsgFrame(subject, payload))
    {
      var start := len;
      len := start + HEADER_LEN + |subject| + |payload|;
      PutFrame(data, start, MsgFrame(subject, payload));
      assert data[..len] == data[..][..len];
    }

    /** trading-sim: one exact reallocation with 512 bytes of headroom. */
    method AppendMsg(subject: GoString, payload: seq<byte>)
      requires Valid()
      modifies this, data
      ensures Valid() && (data == old(data) || fresh(data))
      ensures Contents() == old(Contents()) + Encode(MsgFrame(subject, payload))
    {
      var total := HEADER_LEN + |subject| + |payload|;
      if data.Length - len < total {
        Reallocate(len + total + 512);
      }
      Place(subject, payload);
    }

    /** market-sim-bin: grow with append, to any capacity that holds the frame, until it fits. */
    method AppendMsgGrowing(subject: GoString, payload: seq<byte>)
      requires Valid()
      modifies this, data
      ensures Valid() && (data == old(data) || fresh(data))
      ensures Contents() == old(Contents()) + Encode(MsgFrame(subject, payload))
    {
      var total := HEADER_LEN + |subject| + |payload|;
      while data.Length - len < total
        invariant Valid() && Contents() == old(Contents()) && len == old(len)
        invariant data == old(data) || fresh(data)
        decreases len + total - data.Length
      {
        var capacity: nat :| len + total <= capacity;
        Reallocate(capacity);
      }
      Place(subject, payload);
    }
  }

  /** Which of the writes tried on a connection, counted from 0, succeed. All statements are about every such net. */
  type Net = nat -> bool

  /** How many of the first n writes fail. */
  function Failures(net: Net, n: nat): (f: nat)
    ensures f <= n
  {
    if n == 0 then 0 else Failures(net, n - 1) + if net(n - 1) then 0 else 1
  }

  /** No write has failed if and only if the net lets each of them pass. */
  lemma {:induction false} NoFailuresIff(net: Net, n: nat)
    ensures Failures(net, n) == 0 <==> forall k :: 0 <= k < n ==> net(k)
  {
    if n > 0 {
      NoFailuresIff(net, n - 1);
    }
  }

  /** A publisher connection: one buffer reused for every message, and the bytes written. */
  class BinaryPub {
    const buf: Buffer
    const net: Net
    var out: seq<byte>
    /** The number of writes tried. */
    var writes: nat

    ghost predicate Valid()
      reads this, buf
    {
      buf.Valid()
    }

    constructor (net: Net)
      ensures Valid() && fresh(buf) && fresh(buf.data) && out == [] && writes == 0 && this.net == net
    {
      buf := new Buffer(512);
      this.net, out, writes := net, [], 0;
    }

    /** Each message goes out as its own frame; nothing of an earlier, longer message is sent along. */
    method Publish(subject: GoString, payload: seq<byte>) returns (ok: bool)
      requires Valid()
      modifies this`out, this`writes, buf, buf.data
      ensures Valid() && (buf.data == old(buf.data) || fresh(buf.data))
      ensures ok == net(old(writes)) && writes == old(writes) + 1
      ensures out == if ok then old(out) + Encode(MsgFrame(subject, payload)) else old(out)
    {
      buf.Reset();
      buf.AppendMsg(subject, payload);
      ok := net(writes);
      writes := writes + 1;
      if ok {
        out := out + buf.data[..buf.len];
      }
    }
  }
}
