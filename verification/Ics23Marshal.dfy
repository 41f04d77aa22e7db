/**
 Size and MarshalToSizedBuffer of the proof messages: the buffer is filled from its end towards its front, and
 what ends up in it is the message on the wire, in exactly Size bytes.
 */
module Ics23Marshal {
  import opened Basics
  import opened Sequences
  import opened Varint
  import opened Ics23Types
  import opened Ics23Wire

  // ----- sizes -----

  function BitLen(x: nat): nat {
    if x == 0 then 0 else 1 + BitLen(x / 2)
  }

  /** sovProofs: the size of a varint from the number of bits of x | 1. */
  function Sov(x: nat): nat {
    (BitLen(if x % 2 == 0 then x + 1 else x) + 6) / 7
  }

  lemma BitLenShifted(x: nat)
    requires x >= 128
    ensures BitLen(x) == 7 + BitLen(x / 128)
  {
    TwoBits(x);
    TwoBits(x / 4);
    TwoBits(x / 16);
    assert x / 4 / 4 == x / 16 && x / 16 / 4 == x / 64 && x / 64 / 2 == x / 128;
  }

  lemma TwoBits(x: nat)
    requires x >= 2
    ensures BitLen(x) == 2 + BitLen(x / 4)
  {
    assert x / 2 / 2 == x / 4;
  }

  lemma {:induction false} SovIsLength(x: nat)
    ensures Sov(x) == |Encode(x)|
  {
    if x < 128 {
      assert 1 <= BitLen(if x % 2 == 0 then x + 1 else x) <= 7 by { SmallBitLen(x + 1 - x % 2, 7); }
    } else {
      SovIsLength(x / 128);
      BitLenShifted(x);
      BitLenOdd(x);
      BitLenOdd(x / 128);
    }
  }

  lemma {:induction false} SmallBitLen(x: nat, n: nat)
    requires n <= 7 && 1 <= x && x < [1, 2, 4, 8, 16, 32, 64, 128][n]
    ensures 1 <= BitLen(x) <= n
  {
    if x >= 2 {
      SmallBitLen(x / 2, n - 1);
    }
  }

  lemma BitLenOdd(x: nat)
    requires x >= 1
    ensures BitLen(if x % 2 == 0 then x + 1 else x) == BitLen(x)
  {
    if x % 2 == 0 {
      assert (x + 1) / 2 == x / 2;
    }
  }

  function VarintFieldSize(x: Int32): nat {
    if x == 0 then 0 else 1 + Sov(ToUint64(x))
  }

  function BytesFieldSize(l: nat): nat {
    if l > 0 then 1 + l + Sov(l) else 0
  }

  function SizeInner(op: InnerOp): nat {
    VarintFieldSize(op.hash) + BytesFieldSize(|op.prefix|) + BytesFieldSize(|op.suffix|)
  }

  function SizeLeaf(op: LeafOp): nat {
    VarintFieldSize(op.hash) + VarintFieldSize(op.prehashKey) + VarintFieldSize(op.prehashValue)
    + VarintFieldSize(op.length) + BytesFieldSize(|op.prefix|)
  }

  function MessageFieldSize(l: nat): nat {
    1 + l + Sov(l)
  }

  function SizePath(path: seq<InnerOp>): nat {
    if path == [] then 0 else MessageFieldSize(SizeInner(path[0])) + SizePath(path[1..])
  }

  function SizeExistence(p: ExistenceProof): nat {
    BytesFieldSize(|p.key|) + BytesFieldSize(|p.value|)
    + (if p.leaf.None? then 0 else MessageFieldSize(SizeLeaf(p.leaf.value))) + SizePath(p.path)
  }

  lemma FieldSizes(tag: Byte, x: Int32, b: Bytes)
    ensures VarintFieldSize(x) == |VarintField(tag, x)|
    ensures MessageFieldSize(|b|) == |MessageField(tag, b)|
    ensures BytesFieldSize(|b|) == |BytesField(tag, b)|
  {
    SovIsLength(ToUint64(x));
    SovIsLength(|b|);
  }

  lemma SizeInnerIsLength(op: InnerOp)
    ensures SizeInner(op) == |EncodeInner(op)|
  {
    FieldSizes(0x08, op.hash, op.prefix);
    FieldSizes(0x12, op.hash, op.prefix);
    FieldSizes(0x1a, op.hash, op.suffix);
  }

  lemma SizeLeafIsLength(op: LeafOp)
    ensures SizeLeaf(op) == |EncodeLeaf(op)|
  {
    FieldSizes(0x08, op.hash, op.prefix);
    FieldSizes(0x10, op.prehashKey, op.prefix);
    FieldSizes(0x18, op.prehashValue, op.prefix);
    FieldSizes(0x20, op.length, op.prefix);
    FieldSizes(0x2a, op.length, op.prefix);
  }

  lemma {:induction false} SizePathIsLength(path: seq<InnerOp>)
    ensures SizePath(path) == |EncodePath(path)|
  {
    if path != [] {
      SizeInnerIsLength(path[0]);
      FieldSizes(0x22, 0, EncodeInner(path[0]));
      SizePathIsLength(path[1..]);
    }
  }

  lemma SizeLeafFieldIsLength(leaf: Option<LeafOp>)
    ensures (if leaf.None? then 0 else MessageFieldSize(SizeLeaf(leaf.value))) == |LeafField(leaf)|
  {
    if leaf.Some? {
      SizeLeafIsLength(leaf.value);
      FieldSizes(0x1a, 0, EncodeLeaf(leaf.value));
    }
  }

  /** Size is the length of the message on the wire. */
  lemma SizeExistenceIsLength(p: ExistenceProof)
    ensures SizeExistence(p) == |EncodeExistence(p)|
  {
    FieldSizes(0x0a, 0, p.key);
    FieldSizes(0x12, 0, p.value);
    SizeLeafFieldIsLength(p.leaf);
    SizePathIsLength(p.path);
  }

  // ----- filling the buffer -----

  /** `after` is `before` with `text` written so that it ends at `hi`. */
  predicate Wrote(before: Bytes, after: Bytes, hi: nat, text: Bytes) {
    |text| <= hi <= |before| && after == before[..hi - |text|] + text + before[hi..]
  }

  /** Writing in front of what was just written. */
  lemma WroteMore(a: Bytes, b: Bytes, c: Bytes, hi: nat, text: Bytes, front: Bytes)
    requires Wrote(a, b, hi, text) && Wrote(b, c, hi - |text|, front)
    ensures Wrote(a, c, hi, front + text)
  {
    var lo := hi - |text|;
    assert b[..lo - |front|] == a[..lo - |front|];
    assert b[lo..] == text + a[hi..];
  }

  method EncodeVarintProofs(dAtA: array<Byte>, offset: nat, v: nat) returns (base: nat)
    requires Sov(v) <= offset <= dAtA.Length
    modifies dAtA
    ensures base == offset - Sov(v)
    ensures Wrote(old(dAtA[..]), dAtA[..], offset, Encode(v))
  {
    SovIsLength(v);
    base := offset - Sov(v);
    ghost var text, before := Encode(v), dAtA[..];
    var i: nat, rest := base, v;
    while rest >= 128
      invariant base <= i < offset && text[i - base..] == Encode(rest)
      invariant forall k :: base <= k < i ==> dAtA[k] == text[k - base]
      invariant forall k :: 0 <= k < base || offset <= k < dAtA.Length ==> dAtA[k] == before[k]
    {
      assert text[i - base] == text[i - base..][0] && text[i - base..][1..] == text[i + 1 - base..];
      dAtA[i] := rest % 128 + 128;
      rest := rest / 128;
      i := i + 1;
    }
    assert text[i - base] == text[i - base..][0];
    dAtA[i] := rest;
    assert dAtA[..] == before[..base] + text + before[offset..];
  }

  method PutByte(dAtA: array<Byte>, i: nat, b: Byte) returns (r: nat)
    requires 1 <= i <= dAtA.Length
    modifies dAtA
    ensures r == i - 1 && Wrote(old(dAtA[..]), dAtA[..], i, [b])
  {
    r := i - 1;
    dAtA[r] := b;
    assert dAtA[..] == old(dAtA[..])[..r] + [b] + old(dAtA[..])[i..];
  }

  method PutBytes(dAtA: array<Byte>, i: nat, b: Bytes) returns (r: nat)
    requires |b| <= i <= dAtA.Length
    modifies dAtA
    ensures r == i - |b| && Wrote(old(dAtA[..]), dAtA[..], i, b)
  {
    r := i - |b|;
    forall k | 0 <= k < |b| {
      dAtA[r + k] := b[k];
    }
    assert dAtA[..] == old(dAtA[..])[..r] + b + old(dAtA[..])[i..];
  }

  method PutVarintField(dAtA: array<Byte>, i: nat, tag: Byte, x: Int32) returns (r: nat)
    requires VarintFieldSize(x) <= i <= dAtA.Length
    modifies dAtA
    ensures r == i - VarintFieldSize(x) && Wrote(old(dAtA[..]), dAtA[..], i, VarintField(tag, x))
  {
    r := i;
    ghost var before := dAtA[..];
    if x != 0 {
      SovIsLength(ToUint64(x));
      r := EncodeVarintProofs(dAtA, r, ToUint64(x));
      ghost var middle := dAtA[..];
      r := PutByte(dAtA, r, tag);
      WroteMore(before, middle, dAtA[..], i, Encode(ToUint64(x)), [tag]);
    }
  }

  /** The length and the tag in front of a body that is already there. */
  method PutFieldHead(dAtA: array<Byte>, i: nat, tag: Byte, size: nat) returns (r: nat)
    requires 1 + Sov(size) <= i <= dAtA.Length
    modifies dAtA
    ensures r == i - 1 - Sov(size) && Wrote(old(dAtA[..]), dAtA[..], i, [tag] + Encode(size))
  {
    ghost var before := dAtA[..];
    SovIsLength(size);
    r := EncodeVarintProofs(dAtA, i, size);
    ghost var middle := dAtA[..];
    r := PutByte(dAtA, r, tag);
    WroteMore(before, middle, dAtA[..], i, Encode(size), [tag]);
  }

  method PutBytesField(dAtA: array<Byte>, i: nat, tag: Byte, b: Bytes) returns (r: nat)
    requires BytesFieldSize(|b|) <= i <= dAtA.Length
    modifies dAtA
    ensures r == i - BytesFieldSize(|b|) && Wrote(old(dAtA[..]), dAtA[..], i, BytesField(tag, b))
  {
    r := i;
    if |b| > 0 {
      ghost var before := dAtA[..];
      r := PutBytes(dAtA, r, b);
      ghost var middle := dAtA[..];
      r := PutFieldHead(dAtA, r, tag, |b|);
      WroteMore(before, middle, dAtA[..], i, b, [tag] + Encode(|b|));
    }
  }

  /** InnerOp.MarshalToSizedBuffer on the buffer dAtA[..hi]. */
  method MarshalInnerTo(op: InnerOp, dAtA: array<Byte>, hi: nat) returns (size: nat)
    requires SizeInner(op) <= hi <= dAtA.Length
    modifies dAtA
    ensures size == SizeInner(op) && Wrote(old(dAtA[..]), dAtA[..], hi, EncodeInner(op))
  {
    FieldSizes(0x12, op.hash, op.prefix);
    FieldSizes(0x1a, op.hash, op.suffix);
    ghost var before := dAtA[..];
    var i := PutBytesField(dAtA, hi, 0x1a, op.suffix);
    ghost var first := dAtA[..];
    i := PutBytesField(dAtA, i, 0x12, op.prefix);
    ghost var second := dAtA[..];
    WroteMore(before, first, second, hi, BytesField(0x1a, op.suffix), BytesField(0x12, op.prefix));
    i := PutVarintField(dAtA, i, 0x08, op.hash);
    WroteMore(before, second, dAtA[..], hi, BytesField(0x12, op.prefix) + BytesField(0x1a, op.suffix),
              VarintField(0x08, op.hash));
    Associate(VarintField(0x08, op.hash), BytesField(0x12, op.prefix), BytesField(0x1a, op.suffix));
    size := hi - i;
  }

  /** LeafOp.MarshalToSizedBuffer on the buffer dAtA[..hi]. */
  method MarshalLeafTo(op: LeafOp, dAtA: array<Byte>, hi: nat) returns (size: nat)
    requires SizeLeaf(op) <= hi <= dAtA.Length
    modifies dAtA
    ensures size == SizeLeaf(op) && Wrote(old(dAtA[..]), dAtA[..], hi, EncodeLeaf(op))
  {
    ghost var before := dAtA[..];
    var i := PutBytesField(dAtA, hi, 0x2a, op.prefix);
    FieldSizes(0x2a, op.length, op.prefix);
    ghost var text := BytesField(0x2a, op.prefix);
    i, text := PutInFront(dAtA, before, i, hi, text, 0x20, op.length);
    i, text := PutInFront(dAtA, before, i, hi, text, 0x18, op.prehashValue);
    i, text := PutInFront(dAtA, before, i, hi, text, 0x10, op.prehashKey);
    i, text := PutInFront(dAtA, before, i, hi, text, 0x08, op.hash);
    LeafText(op);
    size := hi - i;
  }

  lemma LeafText(op: LeafOp)
    ensures EncodeLeaf(op) ==
            VarintField(0x08, op.hash) + (VarintField(0x10, op.prehashKey) + (VarintField(0x18, op.prehashValue)
            + (VarintField(0x20, op.length) + BytesField(0x2a, op.prefix))))
  {
    var a, b, c, d, e := VarintField(0x08, op.hash), VarintField(0x10, op.prehashKey),
                         VarintField(0x18, op.prehashValue), VarintField(0x20, op.length), BytesField(0x2a, op.prefix);
    Associate(a + b + c, d, e);
    Associate(a + b, c, d + e);
    Associate(a, b, c + (d + e));
  }

  /** One more varint field in front of the text written so far. */
  method PutInFront(dAtA: array<Byte>, ghost before: Bytes, i: nat, hi: nat, ghost text: Bytes, tag: Byte, x: Int32)
    returns (r: nat, ghost longer: Bytes)
    requires VarintFieldSize(x) <= i <= hi <= dAtA.Length && i == hi - |text|
    requires Wrote(before, dAtA[..], hi, text)
    modifies dAtA
    ensures r == i - VarintFieldSize(x) == hi - |longer| && longer == VarintField(tag, x) + text
    ensures Wrote(before, dAtA[..], hi, longer)
  {
    ghost var middle := dAtA[..];
    r := PutVarintField(dAtA, i, tag, x);
    longer := VarintField(tag, x) + text;
    FieldSizes(tag, x, []);
    WroteMore(before, middle, dAtA[..], hi, text, VarintField(tag, x));
  }

  // ----- existence proofs -----

  lemma {:induction false} SizePathSplit(path: seq<InnerOp>, i: nat)
    requires i < |path|
    ensures SizePath(path) >= SizePath(path[i..]) == MessageFieldSize(SizeInner(path[i])) + SizePath(path[i + 1..])
  {
    assert path[i..][1..] == path[i + 1..];
    if i == 0 {
      assert path[0..] == path;
    } else {
      SizePathSplit(path[1..], i - 1);
      assert path[1..][i - 1..] == path[i..];
    }
  }

  /** One step of the path, with its length and tag, in front of the steps after it. */
  method PutStep(op: InnerOp, dAtA: array<Byte>, i: nat) returns (r: nat)
    requires MessageFieldSize(SizeInner(op)) <= i <= dAtA.Length
    modifies dAtA
    ensures r == i - MessageFieldSize(SizeInner(op))
    ensures Wrote(old(dAtA[..]), dAtA[..], i, MessageField(0x22, EncodeInner(op)))
  {
    ghost var before := dAtA[..];
    SizeInnerIsLength(op);
    var size := MarshalInnerTo(op, dAtA, i);
    ghost var middle := dAtA[..];
    r := PutFieldHead(dAtA, i - size, 0x22, size);
    WroteMore(before, middle, dAtA[..], i, EncodeInner(op), [0x22] + Encode(size));
  }

  /** The loop over the path, last step first. */
  method PutPath(path: seq<InnerOp>, dAtA: array<Byte>, hi: nat) returns (i: nat)
    requires SizePath(path) <= hi <= dAtA.Length
    modifies dAtA
    ensures i == hi - SizePath(path) && Wrote(old(dAtA[..]), dAtA[..], hi, EncodePath(path))
  {
    i := hi;
    ghost var before := dAtA[..];
    var iNdEx := |path|;
    while iNdEx > 0
      invariant 0 <= iNdEx <= |path|
      invariant i == hi - SizePath(path[iNdEx..]) && i <= hi
      invariant Wrote(before, dAtA[..], hi, EncodePath(path[iNdEx..]))
    {
      ghost var middle := dAtA[..];
      ghost var text := EncodePath(path[iNdEx..]);
      SizePathIsLength(path[iNdEx..]);
      SizePathSplit(path, iNdEx - 1);
      iNdEx := iNdEx - 1;
      i := PutStep(path[iNdEx], dAtA, i);
      WroteMore(before, middle, dAtA[..], hi, text, MessageField(0x22, EncodeInner(path[iNdEx])));
      assert path[iNdEx..][1..] == path[iNdEx + 1..];
    }
    assert path[0..] == path;
  }

  method PutLeaf(leaf: Option<LeafOp>, dAtA: array<Byte>, i: nat) returns (r: nat)
    requires |LeafField(leaf)| <= i <= dAtA.Length
    modifies dAtA
    ensures r == i - |LeafField(leaf)| && Wrote(old(dAtA[..]), dAtA[..], i, LeafField(leaf))
  {
    r := i;
    SizeLeafFieldIsLength(leaf);
    if leaf.Some? {
      ghost var before := dAtA[..];
      SizeLeafIsLength(leaf.value);
      var size := MarshalLeafTo(leaf.value, dAtA, i);
      ghost var middle := dAtA[..];
      r := PutFieldHead(dAtA, i - size, 0x1a, size);
      WroteMore(before, middle, dAtA[..], i, EncodeLeaf(leaf.value), [0x1a] + Encode(size));
    }
  }

  function HeadText(p: ExistenceProof): Bytes {
    BytesField(0x0a, p.key) + BytesField(0x12, p.value)
  }

  function TailText(p: ExistenceProof): Bytes {
    LeafField(p.leaf) + EncodePath(p.path)
  }

  lemma TextOfExistence(p: ExistenceProof)
    ensures EncodeExistence(p) == HeadText(p) + TailText(p)
  {
    Associate(HeadText(p), LeafField(p.leaf), EncodePath(p.path));
  }

  method PutKeyAndValue(p: ExistenceProof, dAtA: array<Byte>, hi: nat) returns (i: nat)
    requires |HeadText(p)| <= hi <= dAtA.Length
    modifies dAtA
    ensures i == hi - |HeadText(p)| && Wrote(old(dAtA[..]), dAtA[..], hi, HeadText(p))
  {
    FieldSizes(0x0a, 0, p.key);
    FieldSizes(0x12, 0, p.value);
    ghost var before := dAtA[..];
    i := PutBytesField(dAtA, hi, 0x12, p.value);
    ghost var middle := dAtA[..];
    i := PutBytesField(dAtA, i, 0x0a, p.key);
    WroteMore(before, middle, dAtA[..], hi, BytesField(0x12, p.value), BytesField(0x0a, p.key));
  }

  method PutLeafAndPath(p: ExistenceProof, dAtA: array<Byte>, hi: nat) returns (i: nat)
    requires |TailText(p)| <= hi <= dAtA.Length
    modifies dAtA
    ensures i == hi - |TailText(p)| && Wrote(old(dAtA[..]), dAtA[..], hi, TailText(p))
  {
    SizePathIsLength(p.path);
    ghost var before := dAtA[..];
    i := PutPath(p.path, dAtA, hi);
    ghost var middle := dAtA[..];
    i := PutLeaf(p.leaf, dAtA, i);
    WroteMore(before, middle, dAtA[..], hi, EncodePath(p.path), LeafField(p.leaf));
  }

  /** ExistenceProof.MarshalToSizedBuffer on the buffer dAtA[..hi]. */
  method MarshalExistenceTo(p: ExistenceProof, dAtA: array<Byte>, hi: nat) returns (size: nat)
    requires SizeExistence(p) <= hi <= dAtA.Length
    modifies dAtA
    ensures size == SizeExistence(p) && Wrote(old(dAtA[..]), dAtA[..], hi, EncodeExistence(p))
  {
    SizeExistenceIsLength(p);
    TextOfExistence(p);
    ghost var before := dAtA[..];
    var i := PutLeafAndPath(p, dAtA, hi);
    ghost var middle := dAtA[..];
    i := PutKeyAndValue(p, dAtA, i);
    WroteMore(before, middle, dAtA[..], hi, TailText(p), HeadText(p));
    size := hi - i;
  }

  lemma WroteAll(before: Bytes, after: Bytes, text: Bytes)
    requires Wrote(before, after, |before|, text) && |text| == |before|
    ensures after == text
  {
  }

  /** Marshal of an inner operation gives its text on the wire. */
  method MarshalInner(op: InnerOp) returns (bytes: Bytes)
    ensures bytes == EncodeInner(op) && |bytes| == SizeInner(op)
  {
    var dAtA := new Byte[SizeInner(op)](_ => 0);
    ghost var before := dAtA[..];
    var n := MarshalInnerTo(op, dAtA, dAtA.Length);
    SizeInnerIsLength(op);
    WroteAll(before, dAtA[..], EncodeInner(op));
    bytes := dAtA[..n];
    assert dAtA[..n] == dAtA[..];
  }

  method MarshalLeaf(op: LeafOp) returns (bytes: Bytes)
    ensures bytes == EncodeLeaf(op) && |bytes| == SizeLeaf(op)
  {
    var dAtA := new Byte[SizeLeaf(op)](_ => 0);
    ghost var before := dAtA[..];
    var n := MarshalLeafTo(op, dAtA, dAtA.Length);
    SizeLeafIsLength(op);
    WroteAll(before, dAtA[..], EncodeLeaf(op));
    bytes := dAtA[..n];
    assert dAtA[..n] == dAtA[..];
  }

  method MarshalExistence(p: ExistenceProof) returns (bytes: Bytes)
    ensures bytes == EncodeExistence(p) && |bytes| == SizeExistence(p)
  {
    var dAtA := new Byte[SizeExistence(p)](_ => 0);
    ghost var before := dAtA[..];
    var n := MarshalExistenceTo(p, dAtA, dAtA.Length);
    SizeExistenceIsLength(p);
    WroteAll(before, dAtA[..], EncodeExistence(p));
    bytes := dAtA[..n];
    assert dAtA[..n] == dAtA[..];
  }
}
