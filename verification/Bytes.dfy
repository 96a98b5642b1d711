/** Byte strings and little-endian integers, as Go's encoding/binary reads and writes them. */
module Bytes {

  type byte = b: int | 0 <= b < 256

  /** A Go string: a sequence of bytes. */
  type GoString = seq<byte>

  function Pow256(width: nat): (r: nat)
    ensures 1 <= r
  {
    if width == 0 then 1 else 256 * Pow256(width - 1)
  }

  /** The low `width` bytes of n, least significant first: a PutUintNN of a truncating conversion. */
  function PutLE(n: nat, width: nat): (bs: seq<byte>)
    ensures |bs| == width
  {
    if width == 0 then [] else [n % 256] + PutLE(n / 256, width - 1)
  }

  function GetLE(bs: seq<byte>): (n: nat)
    ensures n < Pow256(|bs|)
  {
    if bs == [] then 0 else bs[0] + 256 * GetLE(bs[1..])
  }

  /** The remainder is determined by any decomposition n == m * q + r with r in range. */
  lemma ModUnique(n: nat, m: nat, q: nat, r: nat)
    requires 0 < m && r < m && n == m * q + r
    ensures n % m == r && n / m == q
  {
    var d: int := n / m - q;
    assert m * d == m * (n / m) - m * q;
    MulSign(m, d);
  }

  lemma MulSign(m: nat, d: int)
    requires 0 < m
    ensures 1 <= d ==> m <= m * d
    ensures d <= -1 ==> m * d <= -(m as int)
  {
  }

  lemma ModStep(n: nat, p: nat)
    requires 0 < p
    ensures n % (256 * p) == n % 256 + 256 * (n / 256 % p)
  {
    var d, r := n / 256, n % 256;
    var q, t := d / p, d % p;
    assert d == p * q + t;
    assert 256 * (p * q) == (256 * p) * q;
    ModUnique(n, 256 * p, q, 256 * t + r);
  }

  lemma {:induction false} GetPut(n: nat, width: nat)
    ensures GetLE(PutLE(n, width)) == n % Pow256(width)
  {
    if width == 0 {
    } else {
      GetPut(n / 256, width - 1);
      ModStep(n, Pow256(width - 1));
      assert PutLE(n, width)[1..] == PutLE(n / 256, width - 1);
    }
  }

  lemma GetPutExact(bs: seq<byte>, n: nat, width: nat)
    requires bs == PutLE(n, width) && n < Pow256(width)
    ensures GetLE(bs) == n
  {
    GetPut(n, width);
  }

  lemma {:induction false} PutGet(bs: seq<byte>)
    ensures PutLE(GetLE(bs), |bs|) == bs
  {
    if bs == [] {
    } else {
      PutGet(bs[1..]);
      ModUnique(GetLE(bs), 256, GetLE(bs[1..]), bs[0]);
      assert bs == [bs[0]] + bs[1..];
    }
  }

  /** Byte i holds the digit of 256^i: the least significant byte comes first. */
  lemma {:induction false} PutLEDigit(n: nat, width: nat, i: nat)
    requires i < width
    ensures PutLE(n, width)[i] == n / Pow256(i) % 256
  {
    if i > 0 {
      PutLEDigit(n / 256, width - 1, i - 1);
      DivDiv(n, Pow256(i - 1));
    }
  }

  lemma DivDiv(n: nat, p: nat)
    requires 0 < p
    ensures n / 256 / p == n / (256 * p)
  {
    var d, r := n / 256, n % 256;
    var q, t := d / p, d % p;
    assert d == p * q + t;
    assert 256 * (p * q) == (256 * p) * q;
    ModUnique(n, 256 * p, q, 256 * t + r);
  }

  lemma PowValues()
    ensures Pow256(2) == 0x1_0000 && Pow256(4) == 0x1_0000_0000 && Pow256(8) == 0x1_0000_0000_0000_0000
  {
    assert Pow256(4) == 256 * (256 * Pow256(2));
    assert Pow256(8) == 256 * (256 * Pow256(6)) == 256 * (256 * (256 * (256 * Pow256(4))));
  }

  /** Go's copy into dst[at..]: exactly |src| bytes change. */
  method Copy(dst: array<byte>, at: nat, src: seq<byte>)
    requires at + |src| <= dst.Length
    modifies dst
    ensures dst[..] == old(dst[..at]) + src + old(dst[at + |src|..])
  {
    var i := 0;
    while i < |src|
      invariant 0 <= i <= |src|
      invariant dst[at..at + i] == src[..i]
      invariant dst[..at] == old(dst[..at])
      invariant dst[at + i..] == old(dst[at + i..])
    {
      dst[at + i] := src[i];
      i := i + 1;
    }
    assert dst[..] == dst[..at] + dst[at..at + i] + dst[at + i..];
  }
}
