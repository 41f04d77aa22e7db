/** Leaf and inner operations: how they hash, and how they are checked against a specification. */
module Ics23Ops {
  import opened Basics
  import opened Sequences
  import opened Varint
  import opened Ics23Types

  /** The hash functions in use. */
  datatype Hasher = Hasher(sha256: Bytes -> Bytes, sha512: Bytes -> Bytes,
                           ripemd160: Bytes -> Bytes, sha512_256: Bytes -> Bytes)

  function DoHash(h: Hasher, op: Int32, preimage: Bytes): Option<Bytes> {
    if op == SHA256 then Some(h.sha256(preimage))
    else if op == SHA512 then Some(h.sha512(preimage))
    else if op == RIPEMD160 then Some(h.ripemd160(preimage))
    else if op == BITCOIN then Some(h.ripemd160(h.sha256(preimage)))
    else if op == SHA512_256 then Some(h.sha512_256(preimage))
    else None
  }

  function DoHashOrNoop(h: Hasher, op: Int32, preimage: Bytes): Option<Bytes> {
    if op == NO_HASH then Some(preimage) else DoHash(h, op, preimage)
  }

  function LittleEndian32(n: nat): Bytes {
    [n % 256, n / 0x100 % 256, n / 0x1_0000 % 256, n / 0x100_0000 % 256]
  }

  function DoLengthOp(op: Int32, data: Bytes): Option<Bytes> {
    if op == NO_PREFIX then Some(data)
    else if op == VAR_PROTO then Some(Encode(|data|) + data)
    else if op == REQUIRE_32_BYTES then (if |data| == 32 then Some(data) else None)
    else if op == REQUIRE_64_BYTES then (if |data| == 64 then Some(data) else None)
    else if op == FIXED32_LITTLE then Some(LittleEndian32(|data|) + data)
    else None
  }

  function PrepareLeafData(h: Hasher, hashOp: Int32, lengthOp: Int32, data: Bytes): Option<Bytes> {
    match DoHashOrNoop(h, hashOp, data)
    case None => None
    case Some(hashed) => DoLengthOp(lengthOp, hashed)
  }

  /** What a leaf operation hashes. */
  function LeafPreimage(h: Hasher, op: LeafOp, key: Bytes, value: Bytes): Option<Bytes> {
    if key == [] || value == [] then None
    else
      match (PrepareLeafData(h, op.prehashKey, op.length, key), PrepareLeafData(h, op.prehashValue, op.length, value))
      case (Some(k), Some(v)) => Some(op.prefix + k + v)
      case _ => None
  }

  function ApplyLeaf(h: Hasher, op: LeafOp, key: Bytes, value: Bytes): Option<Bytes> {
    match LeafPreimage(h, op, key, value)
    case None => None
    case Some(data) => DoHash(h, op.hash, data)
  }

  function ApplyInner(h: Hasher, op: InnerOp, child: Bytes): Option<Bytes> {
    if child == [] then None else DoHash(h, op.hash, op.prefix + child + op.suffix)
  }

  // ----- checks -----

  predicate SpecEquals(p: ProofSpec, spec: ProofSpec) {
    && p.leafSpec.hash == spec.leafSpec.hash
    && p.leafSpec.prehashKey == spec.leafSpec.prehashKey
    && p.leafSpec.prehashValue == spec.leafSpec.prehashValue
    && p.leafSpec.length == spec.leafSpec.length
    && p.innerSpec.hash == spec.innerSpec.hash
    && p.innerSpec.minPrefixLength == spec.innerSpec.minPrefixLength
    && p.innerSpec.maxPrefixLength == spec.innerSpec.maxPrefixLength
    && p.innerSpec.childSize == spec.innerSpec.childSize
    && |p.innerSpec.childOrder| == |spec.innerSpec.childOrder|
  }

  /** n zig-zag varints, none negative, at the start of a prefix: the first one and their total length. */
  function ReadHeader(s: Bytes, n: nat): (r: Option<Signed>)
    requires n >= 1
    ensures r.Some? ==> 0 <= r.value.value && n <= r.value.length <= |s|
  {
    match ReadVarint(s)
    case None => None
    case Some(v) =>
      if v.value < 0 then None
      else if n == 1 then Some(v)
      else
        match ReadHeader(s[v.length..], n - 1)
        case None => None
        case Some(rest) => Some(Signed(v.value, v.length + rest.length))
  }

  /** The IAVL prefix check: three varints, a height of at least the layer, and for an inner
      node one or 34 bytes more. */
  predicate IavlPrefix(prefix: Bytes, hash: Int32, layer: int) {
    var header := ReadHeader(prefix, 3);
    && header.Some? && header.value.value >= layer
    && var rest := |prefix| - header.value.length;
       if layer == 0 then rest == 0 else (rest == 1 || rest == 34) && hash == SHA256
  }

  /** The numbers read so far and where reading stands, continued to three numbers. */
  function HeaderFrom(s: Bytes, pos: nat, values: seq<int>): Option<Signed>
    requires pos <= |s| && |values| <= 3
    decreases 3 - |values|
  {
    if |values| == 3 then Some(Signed(values[0], pos))
    else
      match ReadVarint(s[pos..])
      case None => None
      case Some(v) => if v.value < 0 then None else HeaderFrom(s, pos + v.length, values + [v.value])
  }

  lemma {:induction false} HeaderFromMeans(s: Bytes, pos: nat, values: seq<int>)
    requires pos <= |s| && 0 < |values| < 3
    ensures HeaderFrom(s, pos, values) ==
            match ReadHeader(s[pos..], 3 - |values|)
            case None => None
            case Some(rest) => Some(Signed(values[0], pos + rest.length))
    decreases 3 - |values|
  {
    match ReadVarint(s[pos..])
    case None =>
    case Some(v) =>
      if v.value >= 0 && |values| < 2 {
        assert s[pos..][v.length..] == s[pos + v.length..];
        HeaderFromMeans(s, pos + v.length, values + [v.value]);
      }
  }

  lemma HeaderFromStart(s: Bytes)
    ensures HeaderFrom(s, 0, []) == ReadHeader(s, 3)
  {
    assert s[0..] == s;
    match ReadVarint(s)
    case None =>
    case Some(v) =>
      if v.value >= 0 {
        assert [] + [v.value] == [v.value];
        HeaderFromMeans(s, v.length, [v.value]);
      }
  }

  /** The loop of the IAVL prefix check. */
  method CheckIavlPrefix(prefix: Bytes, hash: Int32, layer: int) returns (ok: bool)
    ensures ok == IavlPrefix(prefix, hash, layer) == PrefixText(prefix, hash, layer)
  {
    IavlPrefixExactly(prefix, hash, layer);
    HeaderFromStart(prefix);
    var pos: nat := 0;
    var values: seq<int> := [];
    while |values| < 3
      invariant |values| <= 3 && pos <= |prefix|
      invariant HeaderFrom(prefix, pos, values) == ReadHeader(prefix, 3)
      decreases 3 - |values|
    {
      var v := ReadVarint(prefix[pos..]);
      if v.None? || v.value.value < 0 {
        return false;
      }
      values := values + [v.value.value];
      pos := pos + v.value.length;
    }
    if values[0] < layer {
      return false;
    }
    var rest := |prefix| - pos;
    if layer == 0 {
      return rest == 0;
    }
    return (rest == 1 || rest == 34) && hash == SHA256;
  }

  predicate CheckLeaf(op: LeafOp, spec: ProofSpec) {
    && (SpecEquals(spec, IavlSpec) ==> IavlPrefix(op.prefix, op.hash, 0))
    && op.hash == spec.leafSpec.hash
    && op.prehashKey == spec.leafSpec.prehashKey
    && op.prehashValue == spec.leafSpec.prehashValue
    && op.length == spec.leafSpec.length
    && spec.leafSpec.prefix <= op.prefix
  }

  predicate CheckInner(op: InnerOp, spec: ProofSpec, layer: int)
    requires spec.innerSpec.childSize > 0
  {
    && op.hash == spec.innerSpec.hash
    && (SpecEquals(spec, IavlSpec) ==> IavlPrefix(op.prefix, op.hash, layer))
    && !(spec.leafSpec.prefix <= op.prefix)
    && |op.prefix| >= spec.innerSpec.minPrefixLength
    && |op.prefix| <= spec.innerSpec.maxPrefixLength + (|spec.innerSpec.childOrder| - 1) * spec.innerSpec.childSize
    && |op.suffix| % spec.innerSpec.childSize == 0
  }

  // ----- what the checks mean for the IAVL format -----

  /** The texts of these numbers, none negative. */
  predicate NumberTexts(texts: seq<Bytes>, numbers: seq<nat>) {
    |texts| == |numbers| && forall i :: 0 <= i < |texts| ==> NatText(texts[i], numbers[i])
  }

  function AllOf(texts: seq<Bytes>): Bytes {
    if texts == [] then [] else texts[0] + AllOf(texts[1..])
  }

  /** The prefix is the texts of three numbers, the first of them the height, and `more`. */
  ghost predicate HeaderText(prefix: Bytes, height: nat, more: Bytes) {
    exists texts, numbers ::
      NumberTexts(texts, numbers) && |texts| == 3 && numbers[0] == height && prefix == AllOf(texts) + more
  }

  lemma AllOfFirst(first: Bytes, texts: seq<Bytes>)
    ensures AllOf([first] + texts) == first + AllOf(texts)
  {
    assert ([first] + texts)[1..] == texts;
  }

  /** A number in front is read first. */
  lemma HeaderFirst(a: Bytes, first: nat, rest: Bytes, n: nat)
    requires NatText(a, first) && n >= 1
    ensures ReadHeader(a + rest, n) ==
            if n == 1 then Some(Signed(first, |a|))
            else if ReadHeader(rest, n - 1).None? then None
            else Some(Signed(first, |a| + ReadHeader(rest, n - 1).value.length))
  {
    ReadVarintReads(a, rest, first);
    assert (a + rest)[|a|..] == rest;
  }

  lemma HeaderMore(a: Bytes, first: nat, tail: Bytes, more: Bytes, n: nat)
    requires NatText(a, first) && n >= 1
    requires if n == 1 then tail == []
             else ReadHeader(tail + more, n - 1).Some? && ReadHeader(tail + more, n - 1).value.length == |tail|
    ensures ReadHeader(a + tail + more, n) == Some(Signed(first, |a + tail|))
  {
    Associate(a, tail, more);
    HeaderFirst(a, first, tail + more, n);
  }

  lemma {:induction false} NumbersRead(texts: seq<Bytes>, numbers: seq<nat>, more: Bytes)
    requires texts != [] && NumberTexts(texts, numbers)
    ensures ReadHeader(AllOf(texts) + more, |texts|) == Some(Signed(numbers[0], |AllOf(texts)|))
  {
    if |texts| > 1 {
      NumbersRead(texts[1..], numbers[1..], more);
    }
    HeaderMore(texts[0], numbers[0], AllOf(texts[1..]), more, |texts|);
  }

  /** What is read is a number in front of what is read next. */
  lemma ReadFirst(s: Bytes, n: nat)
    requires n >= 1 && ReadHeader(s, n).Some?
    ensures ReadVarint(s).Some? && ReadVarint(s).value.value == ReadHeader(s, n).value.value
    ensures var a := ReadVarint(s).value;
            && NatText(s[..a.length], a.value)
            && if n == 1 then ReadHeader(s, n).value.length == a.length
               else ReadHeader(s[a.length..], n - 1).Some? &&
                    ReadHeader(s, n).value.length == a.length + ReadHeader(s[a.length..], n - 1).value.length
  {
    ReadVarintIsText(s);
  }

  lemma {:induction false} ReadNumbers(s: Bytes, n: nat) returns (texts: seq<Bytes>, numbers: seq<nat>)
    requires n >= 1 && ReadHeader(s, n).Some?
    ensures NumberTexts(texts, numbers) && |texts| == n && numbers[0] == ReadHeader(s, n).value.value
    ensures s == AllOf(texts) + s[ReadHeader(s, n).value.length..]
  {
    ReadFirst(s, n);
    var v := ReadVarint(s).value;
    var a, rest := s[..v.length], s[v.length..];
    var t: seq<Bytes>, m: seq<nat> := [], [];
    if n > 1 {
      t, m := ReadNumbers(rest, n - 1);
    }
    texts, numbers := [a] + t, [v.value] + m;
    AllOfFirst(a, t);
    CutTwice(s, v.length, AllOf(t));
  }

  lemma CutTwice(s: Bytes, n: nat, t: Bytes)
    requires n + |t| <= |s| && t <= s[n..]
    ensures s == s[..n] + t + s[n + |t|..]
  {
  }

  lemma HeaderReads(prefix: Bytes, height: nat, more: Bytes)
    requires HeaderText(prefix, height, more)
    ensures |prefix| >= |more| + 3 && ReadHeader(prefix, 3) == Some(Signed(height, |prefix| - |more|))
  {
    var texts, numbers :|
      NumberTexts(texts, numbers) && |texts| == 3 && numbers[0] == height && prefix == AllOf(texts) + more;
    NumbersRead(texts, numbers, more);
  }

  /** Three numbers, the first at least the layer; behind them nothing for a leaf, and one or 34 bytes otherwise. */
  ghost predicate PrefixText(prefix: Bytes, hash: Int32, layer: int) {
    exists height: nat, more :: HeaderText(prefix, height, more) && height >= layer &&
                                if layer == 0 then more == [] else |more| in {1, 34} && hash == SHA256
  }

  /** The prefix check, without its reader. */
  lemma IavlPrefixExactly(prefix: Bytes, hash: Int32, layer: int)
    ensures IavlPrefix(prefix, hash, layer) <==> PrefixText(prefix, hash, layer)
  {
    if IavlPrefix(prefix, hash, layer) {
      var texts, numbers := ReadNumbers(prefix, 3);
      var r := ReadHeader(prefix, 3).value;
      assert HeaderText(prefix, r.value, prefix[r.length..]);
    }
    forall height: nat, more | HeaderText(prefix, height, more) && height >= layer &&
                               if layer == 0 then more == [] else |more| in {1, 34} && hash == SHA256
      ensures IavlPrefix(prefix, hash, layer)
    {
      HeaderReads(prefix, height, more);
    }
  }

  /** A leaf operation of the IAVL format: SHA-256 of the value, of a header of three numbers that starts with 0. */
  ghost predicate IavlLeaf(op: LeafOp) {
    && op.hash == SHA256 && op.prehashKey == NO_HASH && op.prehashValue == SHA256 && op.length == VAR_PROTO
    && op.prefix != [] && op.prefix[0] == 0
    && exists height: nat :: HeaderText(op.prefix, height, [])
  }

  /** An inner operation of the IAVL format for a layer: SHA-256 of a header of three numbers that does not start with
      0, with a height of at least the layer, and one or 34 bytes behind it; the suffix is whole children. */
  ghost predicate IavlInner(op: InnerOp, layer: int) {
    && op.hash == SHA256 && |op.prefix| <= 45 && |op.suffix| % 33 == 0
    && (op.prefix == [] || op.prefix[0] != 0)
    && exists height: nat, more :: HeaderText(op.prefix, height, more) && height >= layer && |more| in {1, 34}
  }

  lemma CheckLeafExactly(op: LeafOp)
    ensures CheckLeaf(op, IavlSpec) <==> IavlLeaf(op)
  {
    IavlPrefixExactly(op.prefix, op.hash, 0);
    assert [0] <= op.prefix <==> op.prefix != [] && op.prefix[0] == 0;
  }

  lemma CheckInnerExactly(op: InnerOp, layer: int)
    requires layer >= 1
    ensures CheckInner(op, IavlSpec, layer) <==> IavlInner(op, layer)
  {
    IavlPrefixExactly(op.prefix, op.hash, layer);
    assert [0] <= op.prefix <==> op.prefix != [] && op.prefix[0] == 0;
    forall height: nat, more | HeaderText(op.prefix, height, more) && |more| in {1, 34} ensures |op.prefix| >= 4 {
      HeaderReads(op.prefix, height, more);
    }
  }
}
