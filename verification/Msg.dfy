/** The 16-byte prefix of a benchmark message: send time and sequence number, both little-endian. */
module Msg {
  import opened Bytes
  import opened Wrappers

  const MIN_SIZE := 16
  const U64: nat := 0x1_0000_0000_0000_0000
  const I64: nat := 0x8000_0000_0000_0000

  type int64 = x: int | -(I64 as int) <= x < I64
  type uint64 = x: int | 0 <= x < U64

  function ToUint64(x: int): uint64 { x % U64 }

  /** The two's complement reading of the low 64 bits. */
  function ToInt64(x: int): int64 {
    var u := x % U64;
    if u < I64 then u else u - U64
  }

  /** A number read as 64 bits is itself exactly when it fits them. */
  lemma FitsIff(x: int)
    ensures ToInt64(x) == x <==> -(I64 as int) <= x < I64
  {
  }

  /** Adding with wrap-around, step by step, comes to the wrapped sum. */
  lemma AddWraps(a: int, b: int)
    ensures ToInt64(ToInt64(a) + b) == ToInt64(a + b)
  {
    var k := (a - ToInt64(a)) / U64;
    assert a - ToInt64(a) == U64 * k;
    SameRemainder(ToInt64(a) + b, a + b, k);
  }

  lemma SameRemainder(x: int, y: int, k: int)
    requires y == x + U64 * k
    ensures x % U64 == y % U64
  {
  }

  datatype Decoded = Decoded(latencyNs: int64, seqNo: uint64)

  /** What Encode leaves in a buffer. */
  function Encoded(buf: seq<byte>, sentNs: int64, seqNo: uint64): seq<byte>
    requires MIN_SIZE <= |buf|
  {
    PutLE(ToUint64(sentNs), 8) + PutLE(seqNo, 8) + buf[MIN_SIZE..]
  }

  /** Overwrites the first 16 bytes of the caller's buffer; the rest is left alone. */
  method Encode(buf: array<byte>, sentNs: int64, seqNo: uint64)
    requires MIN_SIZE <= buf.Length
    modifies buf
    ensures buf[..] == Encoded(old(buf[..]), sentNs, seqNo)
  {
    Copy(buf, 0, PutLE(ToUint64(sentNs), 8));
    Copy(buf, 8, PutLE(seqNo, 8));
  }

  function Decode(data: seq<byte>, nowNs: int64): Option<Decoded> {
    if |data| < MIN_SIZE then None
    else Some(Decoded(ToInt64(nowNs - ToInt64(GetLE(data[0..8]))), GetLE8(data[8..16])))
  }

  function GetLE8(bs: seq<byte>): uint64
    requires |bs| == 8
  {
    PowValues();
    GetLE(bs)
  }

  /** Storing a signed time as unsigned bits loses nothing. */
  lemma SignedBits(x: int64)
    ensures ToInt64(ToUint64(x)) == x
  {
  }

  lemma PrefixFields(a: seq<byte>, b: seq<byte>, rest: seq<byte>)
    requires |a| == 8 && |b| == 8
    ensures (a + b + rest)[0..8] == a && (a + b + rest)[8..16] == b
  {
  }

  /** Every sequence number survives, and the latency is the time between the two clock readings. */
  lemma DecodeEncoded(buf: seq<byte>, sentNs: int64, seqNo: uint64, nowNs: int64)
    requires MIN_SIZE <= |buf|
    ensures Decode(Encoded(buf, sentNs, seqNo), nowNs) == Some(Decoded(ToInt64(nowNs - sentNs), seqNo))
  {
    SignedBits(sentNs);
    hide PutLE, GetLE, Pow256, ToInt64, ToUint64;
    var d := Encoded(buf, sentNs, seqNo);
    PrefixFields(PutLE(ToUint64(sentNs), 8), PutLE(seqNo, 8), buf[MIN_SIZE..]);
    PowValues();
    GetPutExact(d[0..8], ToUint64(sentNs), 8);
    GetPutExact(d[8..16], seqNo, 8);
  }
}
