/** The byte writers of pkg/xds/hash.go: varints and length-prefixed strings, and why they parse back. */
module Varint {
  import opened Prelude

  type byte = b: int | 0 <= b < 256
  type Bytes = seq<byte>

  /** binary.PutUvarint: seven bits at a time, low bits first. */
  function PutUvarint(n: nat): (b: Bytes)
    ensures b != []
  {
    if n < 128 then [n] else [n % 128 + 128] + PutUvarint(n / 128)
  }

  /** The sign goes to the lowest bit. */
  function ZigZag(n: int): nat {
    if n >= 0 then 2 * n else -2 * n - 1
  }

  function PutVarint(n: int): Bytes {
    PutUvarint(ZigZag(n))
  }

  /** writeBytes: the length, then the bytes. */
  function Framed(b: Bytes): Bytes {
    PutUvarint(|b|) + b
  }

  /** binary.Uvarint: the number at the front, and what follows it. */
  function Uvarint(b: Bytes): Option<(nat, Bytes)> {
    if b == [] then None
    else if b[0] < 128 then Some((b[0], b[1..]))
    else
      match Uvarint(b[1..])
      case None => None
      case Some((high, rest)) => Some((b[0] - 128 + 128 * high, rest))
  }

  /** binary.Varint: the lowest bit is the sign. */
  function Varint(b: Bytes): Option<(int, Bytes)> {
    match Uvarint(b)
    case None => None
    case Some((n, rest)) => Some((if n % 2 == 0 then n / 2 else -(n / 2) - 1, rest))
  }

  lemma {:induction false} UvarintReads(n: nat, rest: Bytes)
    ensures Uvarint(PutUvarint(n) + rest) == Some((n, rest))
    decreases n
  {
    var s := PutUvarint(n) + rest;
    assert s[0] == PutUvarint(n)[0];
    if n < 128 {
      assert s[1..] == rest;
    } else {
      UvarintReads(n / 128, rest);
      assert s[1..] == PutUvarint(n / 128) + rest;
      assert n == n / 128 * 128 + n % 128;
    }
  }

  lemma VarintReads(n: int, rest: Bytes)
    ensures Varint(PutVarint(n) + rest) == Some((n, rest))
  {
    UvarintReads(ZigZag(n), rest);
  }

  lemma UvarintPrefixFree(a: nat, b: nat, x: Bytes, y: Bytes)
    requires PutUvarint(a) + x == PutUvarint(b) + y
    ensures a == b && x == y
  {
    UvarintReads(a, x);
    UvarintReads(b, y);
  }

  lemma VarintPrefixFree(a: int, b: int, x: Bytes, y: Bytes)
    requires PutVarint(a) + x == PutVarint(b) + y
    ensures a == b && x == y
  {
    VarintReads(a, x);
    VarintReads(b, y);
  }

  lemma FramedPrefixFree(a: Bytes, b: Bytes, x: Bytes, y: Bytes)
    requires Framed(a) + x == Framed(b) + y
    ensures a == b && x == y
  {
    assert Framed(a) + x == PutUvarint(|a|) + (a + x);
    assert Framed(b) + y == PutUvarint(|b|) + (b + y);
    UvarintPrefixFree(|a|, |b|, a + x, b + y);
    assert (a + x)[..|a|] == a && (b + y)[..|b|] == b;
    assert (a + x)[|a|..] == x && (b + y)[|b|..] == y;
  }
}
