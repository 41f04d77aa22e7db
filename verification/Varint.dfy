/**
 Base-128 varints: the encoder, a decoder that reads at most ten bytes, and why a stream of varints
 can be cut up in one way only.
 */
module Varint {
  import opened Basics

  const TWO63: int := 0x8000_0000_0000_0000
  const TWO64: int := 0x1_0000_0000_0000_0000
  const MAX_VARINT_LEN: nat := 10

  function Pow128(n: nat): (r: nat)
    ensures r >= 1
  {
    if n == 0 then 1 else 128 * Pow128(n - 1)
  }

  function Encode(v: nat): (r: Bytes)
    ensures r != []
  {
    if v < 128 then [v] else [v % 128 + 128] + Encode(v / 128)
  }

  datatype Scanned = Scanned(value: nat, length: nat)

  /** The varint at the start of s, when `read` of its bytes are already consumed. */
  function Scan(s: Bytes, read: nat := 0): (r: Option<Scanned>)
    ensures r.Some? ==> 1 <= r.value.length <= |s|
    ensures r.Some? ==> read + r.value.length <= MAX_VARINT_LEN
    decreases |s|
  {
    if read >= MAX_VARINT_LEN || s == [] then None
    else if s[0] < 128 then Some(Scanned(s[0], 1))
    else
      match Scan(s[1..], read + 1)
      case None => None
      case Some(rest) => Some(Scanned(s[0] - 128 + 128 * rest.value, rest.length + 1))
  }

  /** What follows a varint does not matter. */
  lemma {:induction false} ScanExtends(s: Bytes, t: Bytes, read: nat)
    requires Scan(s, read).Some?
    ensures Scan(s + t, read) == Scan(s, read)
  {
    if s[0] >= 128 {
      assert (s + t)[1..] == s[1..] + t;
      ScanExtends(s[1..], t, read + 1);
    }
  }

  /** Decoding inverts encoding, whatever follows. */
  lemma {:induction false} ScanEncode(v: nat, t: Bytes, read: nat)
    requires read + |Encode(v)| <= MAX_VARINT_LEN
    ensures Scan(Encode(v) + t, read) == Some(Scanned(v, |Encode(v)|))
  {
    if v >= 128 {
      assert (Encode(v) + t)[1..] == Encode(v / 128) + t;
      ScanEncode(v / 128, t, read + 1);
    }
  }

  /** No encoding is a proper prefix of another. */
  lemma {:induction false} EncodeCut(a: nat, x: Bytes, b: nat, y: Bytes)
    requires Encode(a) + x == Encode(b) + y
    ensures a == b && x == y
  {
    assert (Encode(a) + x)[0] == Encode(a)[0] && (Encode(b) + y)[0] == Encode(b)[0];
    if a >= 128 {
      assert (Encode(a) + x)[1..] == Encode(a / 128) + x;
      assert (Encode(b) + y)[1..] == Encode(b / 128) + y;
      EncodeCut(a / 128, x, b / 128, y);
    } else {
      assert x == (Encode(a) + x)[1..] == (Encode(b) + y)[1..] == y;
    }
  }

  lemma {:induction false} EncodeLength(v: nat, n: nat)
    requires n >= 1
    ensures v < Pow128(n) <==> |Encode(v)| <= n
  {
    if v < 128 {
      assert Pow128(n) == 128 * Pow128(n - 1) >= 128;
    } else if n > 1 {
      EncodeLength(v / 128, n - 1);
    }
  }

  lemma EncodeFits(v: nat)
    requires v < TWO64
    ensures |Encode(v)| <= MAX_VARINT_LEN
  {
    assert Pow128(10) == 0x40_0000_0000_0000_0000 by {
      assert Pow128(5) == 0x8_0000_0000;
    }
    EncodeLength(v, 10);
  }

  // ----- varints as texts -----

  /** The number that base-128 digits make, the lowest first. */
  function DigitsValue(s: Bytes): nat {
    if s == [] then 0 else s[0] % 128 + 128 * DigitsValue(s[1..])
  }

  /** The text of a varint: all bytes but the last have their high bit set, and there are at most `most`. */
  predicate VarintText(s: Bytes, most: nat) {
    && 1 <= |s| <= most && s[|s| - 1] < 128
    && forall i :: 0 <= i < |s| - 1 ==> s[i] >= 128
  }

  /** A varint at the front is read as the number that its digits make. */
  lemma {:induction false} ScanReads(s: Bytes, rest: Bytes, read: nat)
    requires read <= MAX_VARINT_LEN && VarintText(s, MAX_VARINT_LEN - read)
    ensures Scan(s + rest, read) == Some(Scanned(DigitsValue(s), |s|))
  {
    var all := s + rest;
    assert all[0] == s[0];
    if |s| == 1 {
      assert DigitsValue(s[1..]) == 0;
    } else {
      assert all[1..] == s[1..] + rest;
      ScanReads(s[1..], rest, read + 1);
    }
  }

  /** Nothing else is read. */
  lemma {:induction false} ScanIsText(data: Bytes, read: nat)
    requires Scan(data, read).Some?
    ensures var n := Scan(data, read).value.length;
            VarintText(data[..n], MAX_VARINT_LEN - read) && DigitsValue(data[..n]) == Scan(data, read).value.value
  {
    var n := Scan(data, read).value.length;
    var s := data[..n];
    if data[0] >= 128 {
      ScanIsText(data[1..], read + 1);
      assert s[1..] == data[1..][..n - 1];
      assert forall i :: 1 <= i < n - 1 ==> s[i] == s[1..][i - 1];
      assert s[n - 1] == s[1..][n - 2];
    } else {
      assert s[1..] == [];
    }
  }

  /** The loop of encodeVarintProto. */
  method EncodeVarintProto(l: nat) returns (res: Bytes)
    ensures res == Encode(l)
  {
    res := [];
    var rest := l;
    while rest >= 128
      invariant res + Encode(rest) == Encode(l)
    {
      res := res + [rest % 128 + 128];
      rest := rest / 128;
    }
    res := res + [rest];
  }

  // ----- zig-zag varints, as package encoding/binary reads them -----

  datatype Signed = Signed(value: int, length: nat)

  /** binary.ReadVarint: a zig-zag varint that fits 64 bits. */
  function ReadVarint(s: Bytes): (r: Option<Signed>)
    ensures r.Some? ==> 1 <= r.value.length <= |s|
  {
    match Scan(s)
    case None => None
    case Some(u) =>
      if u.value >= TWO64 then None
      else Some(Signed(if u.value % 2 == 0 then u.value / 2 else -(u.value / 2) - 1, u.length))
  }

  /** binary.PutVarint of a number that is not negative. */
  function PutVarint(n: nat): Bytes {
    Encode(2 * n)
  }

  lemma ReadPutVarint(n: nat, t: Bytes)
    requires n < TWO63
    ensures ReadVarint(PutVarint(n) + t) == Some(Signed(n, |PutVarint(n)|))
  {
    EncodeFits(2 * n);
    ScanEncode(2 * n, t, 0);
  }

  /** The text of a number that is not negative, as a zig-zag varint of 64 bits. */
  predicate NatText(s: Bytes, n: nat) {
    n < TWO63 && VarintText(s, MAX_VARINT_LEN) && DigitsValue(s) == 2 * n
  }

  lemma ReadVarintReads(s: Bytes, rest: Bytes, n: nat)
    requires NatText(s, n)
    ensures ReadVarint(s + rest) == Some(Signed(n, |s|))
  {
    ScanReads(s, rest, 0);
  }

  lemma ReadVarintIsText(data: Bytes)
    requires ReadVarint(data).Some? && ReadVarint(data).value.value >= 0
    ensures NatText(data[..ReadVarint(data).value.length], ReadVarint(data).value.value)
  {
    ScanIsText(data, 0);
  }
}
