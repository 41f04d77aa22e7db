/**
 The wire format of the proof messages, as functions: what marshalling must produce and what
 unmarshalling makes of any input.
 */
module Ics23Wire {
  import opened Basics
  import opened Sequences
  import opened Varint
  import opened Ics23Types

  // ----- encoding -----

  /** uint64(x) of an int32: negative numbers are sign-extended. */
  function ToUint64(x: Int32): (r: nat)
    ensures r < TWO64
  {
    if x < 0 then x + TWO64 else x
  }

  function VarintField(tag: Byte, x: Int32): Bytes {
    if x == 0 then [] else [tag] + Encode(ToUint64(x))
  }

  function MessageField(tag: Byte, body: Bytes): Bytes {
    [tag] + Encode(|body|) + body
  }

  function BytesField(tag: Byte, b: Bytes): Bytes {
    if b == [] then [] else MessageField(tag, b)
  }

  function EncodeInner(op: InnerOp): Bytes {
    VarintField(0x08, op.hash) + BytesField(0x12, op.prefix) + BytesField(0x1a, op.suffix)
  }

  function EncodeLeaf(op: LeafOp): Bytes {
    VarintField(0x08, op.hash) + VarintField(0x10, op.prehashKey) + VarintField(0x18, op.prehashValue)
    + VarintField(0x20, op.length) + BytesField(0x2a, op.prefix)
  }

  function EncodePath(path: seq<InnerOp>): Bytes {
    if path == [] then [] else MessageField(0x22, EncodeInner(path[0])) + EncodePath(path[1..])
  }

  function LeafField(leaf: Option<LeafOp>): Bytes {
    if leaf.None? then [] else MessageField(0x1a, EncodeLeaf(leaf.value))
  }

  function EncodeExistence(p: ExistenceProof): Bytes {
    BytesField(0x0a, p.key) + BytesField(0x12, p.value) + LeafField(p.leaf) + EncodePath(p.path)
  }

  // ----- decoding -----

  const NoInner := InnerOp(0, [], [])
  const NoLeaf := LeafOp(0, 0, 0, 0, [])
  const NoExistence := ExistenceProof([], [], None, [])

  /** The int32 whose bits are the low 32 bits of v. */
  function ToInt32(v: nat): (r: Int32)
    ensures (v - r) % 0x1_0000_0000 == 0
  {
    var low := v % 0x1_0000_0000;
    if low < 0x8000_0000 then low else low - 0x1_0000_0000
  }

  datatype Field = Field(number: Int32, wireType: int, rest: Bytes)

  /** The key of the next field; group ends and illegal tags are errors. */
  function ReadField(data: Bytes): (r: Option<Field>)
    ensures r.Some? ==> |r.value.rest| < |data|
  {
    match Scan(data)
    case None => None
    case Some(s) =>
      var wire := s.value % TWO64;
      var number := ToInt32(wire / 8);
      if wire % 8 == 4 || number <= 0 then None
      else Some(Field(number, wire % 8, data[s.length..]))
  }

  datatype Payload = Payload(body: Bytes, rest: Bytes)

  /** A length-delimited payload; a negative or too large length is an error. */
  function ReadPayload(data: Bytes): (r: Option<Payload>)
    ensures r.Some? ==> |r.value.rest| < |data|
  {
    match Scan(data)
    case None => None
    case Some(s) =>
      var length := s.value % TWO64;
      if length >= TWO63 || length > |data| - s.length then None
      else Some(Payload(data[s.length..s.length + length], data[s.length + length..]))
  }

  datatype Number = Number(value: Int32, rest: Bytes)

  function ReadEnum(data: Bytes): (r: Option<Number>)
    ensures r.Some? ==> |r.value.rest| < |data|
  {
    match Scan(data)
    case None => None
    case Some(s) => Some(Number(ToInt32(s.value), data[s.length..]))
  }

  datatype Position = Position(at: nat, depth: nat)

  /** Where the payload of a field that is skipped ends, and how many groups are open there. */
  function SkipPayload(data: Bytes, at: nat, wireType: int, depth: nat): (r: Option<Position>)
    requires at <= |data|
    ensures r.Some? ==> r.value.at >= at
  {
    match wireType
    case 0 =>
      (match Scan(data[at..])
       case None => None
       case Some(v) => Some(Position(at + v.length, depth)))
    case 1 => Some(Position(at + 8, depth))
    case 2 =>
      (match Scan(data[at..])
       case None => None
       case Some(v) =>
         if v.value % TWO64 >= TWO63 then None else Some(Position(at + v.length + v.value % TWO64, depth)))
    case 3 => Some(Position(at, depth + 1))
    case 4 => if depth == 0 then None else Some(Position(at, depth - 1))
    case 5 => Some(Position(at + 4, depth))
    case _ => None
  }

  /** One key and what belongs to it. */
  function SkipNext(data: Bytes, pos: nat, depth: nat): (r: Option<Position>)
    requires pos < |data|
    ensures r.Some? ==> r.value.at > pos
  {
    match Scan(data[pos..])
    case None => None
    case Some(key) => SkipPayload(data, pos + key.length, key.value % TWO64 % 8, depth)
  }

  /** skipProofs: the end of the field that starts at `pos`, groups included. */
  function Skip(data: Bytes, pos: nat, depth: nat): (r: Option<nat>)
    ensures r.Some? ==> r.value > pos
    decreases |data| - pos
  {
    if pos >= |data| then None
    else
      match SkipNext(data, pos, depth)
      case None => None
      case Some(p) => if p.depth == 0 then Some(p.at) else Skip(data, p.at, p.depth)
  }

  /** An unknown field is skipped from its key on. */
  function SkipField(data: Bytes): (r: Option<Bytes>)
    ensures r.Some? ==> |r.value| < |data|
  {
    match Skip(data, 0, 0)
    case None => None
    case Some(n) => if n > |data| then None else Some(data[n..])
  }

  function DecodeInner(data: Bytes, m: InnerOp): Option<InnerOp>
    decreases |data|
  {
    if data == [] then Some(m)
    else
      match ReadField(data)
      case None => None
      case Some(f) =>
        if f.number == 1 then
          if f.wireType != 0 then None
          else match ReadEnum(f.rest)
               case None => None
               case Some(n) => DecodeInner(n.rest, m.(hash := n.value))
        else if f.number == 2 || f.number == 3 then
          if f.wireType != 2 then None
          else match ReadPayload(f.rest)
               case None => None
               case Some(p) =>
                 DecodeInner(p.rest, if f.number == 2 then m.(prefix := p.body) else m.(suffix := p.body))
        else
          match SkipField(data)
          case None => None
          case Some(rest) => DecodeInner(rest, m)
  }

  /** The leaf with the enumeration of that field number. */
  function WithLeafField(m: LeafOp, number: int, x: Int32): LeafOp {
    if number == 1 then m.(hash := x)
    else if number == 2 then m.(prehashKey := x)
    else if number == 3 then m.(prehashValue := x)
    else m.(length := x)
  }

  function DecodeLeaf(data: Bytes, m: LeafOp): Option<LeafOp>
    decreases |data|
  {
    if data == [] then Some(m)
    else
      match ReadField(data)
      case None => None
      case Some(f) =>
        if 1 <= f.number <= 4 then
          if f.wireType != 0 then None
          else match ReadEnum(f.rest)
               case None => None
               case Some(n) => DecodeLeaf(n.rest, WithLeafField(m, f.number, n.value))
        else if f.number == 5 then
          if f.wireType != 2 then None
          else match ReadPayload(f.rest)
               case None => None
               case Some(p) => DecodeLeaf(p.rest, m.(prefix := p.body))
        else
          match SkipField(data)
          case None => None
          case Some(rest) => DecodeLeaf(rest, m)
  }

  function DecodeExistence(data: Bytes, m: ExistenceProof): Option<ExistenceProof>
    decreases |data|
  {
    if data == [] then Some(m)
    else
      match ReadField(data)
      case None => None
      case Some(f) =>
        if 1 <= f.number <= 4 then
          if f.wireType != 2 then None
          else match ReadPayload(f.rest)
               case None => None
               case Some(p) =>
                 match MergeExistence(m, f.number, p.body)
                 case None => None
                 case Some(m1) => DecodeExistence(p.rest, m1)
        else
          match SkipField(data)
          case None => None
          case Some(rest) => DecodeExistence(rest, m)
  }

  /** One field of an existence proof put into the message: a leaf merges into the leaf that is there. */
  function MergeExistence(m: ExistenceProof, number: int, body: Bytes): Option<ExistenceProof>
    requires 1 <= number <= 4
  {
    if number == 1 then Some(m.(key := body))
    else if number == 2 then Some(m.(value := body))
    else if number == 3 then
      match DecodeLeaf(body, if m.leaf.None? then NoLeaf else m.leaf.value)
      case None => None
      case Some(leaf) => Some(m.(leaf := Some(leaf)))
    else
      match DecodeInner(body, NoInner)
      case None => None
      case Some(op) => Some(m.(path := m.path + [op]))
  }

  // ----- reading back what was written -----

  lemma ReadTag(tag: Byte, rest: Bytes)
    requires 8 <= tag < 128 && tag % 8 != 4
    ensures ReadField([tag] + rest) == Some(Field(tag / 8, tag % 8, rest))
  {
    assert Scan([tag] + rest) == Some(Scanned(tag, 1));
    assert ([tag] + rest)[1..] == rest;
  }

  lemma ReadEnumBack(x: Int32, rest: Bytes)
    ensures ReadEnum(Encode(ToUint64(x)) + rest) == Some(Number(x, rest))
  {
    var e := Encode(ToUint64(x));
    EncodeFits(ToUint64(x));
    ScanEncode(ToUint64(x), rest, 0);
    assert (e + rest)[|e|..] == rest;
  }

  lemma PayloadCut(e: Bytes, body: Bytes, rest: Bytes, data: Bytes)
    requires data == e + body + rest
    ensures data == e + (body + rest)
    ensures data[|e|..|e| + |body|] == body && data[|e| + |body|..] == rest
  {
  }

  lemma ReadPayloadBack(body: Bytes, rest: Bytes)
    requires |body| < TWO63
    ensures ReadPayload(Encode(|body|) + body + rest) == Some(Payload(body, rest))
  {
    var e := Encode(|body|);
    var data := e + body + rest;
    PayloadCut(e, body, rest, data);
    EncodeFits(|body|);
    ScanEncode(|body|, body + rest, 0);
    ReadPayloadAt(data, |body|, |e|);
  }

  lemma ReadPayloadAt(data: Bytes, n: nat, at: nat)
    requires n < TWO63 && at + n <= |data| && Scan(data) == Some(Scanned(n, at))
    ensures ReadPayload(data) == Some(Payload(data[at..at + n], data[at + n..]))
  {
    Unwrapped(n);
  }

  lemma Unwrapped(n: nat)
    requires n < TWO63
    ensures n % TWO64 == n
  {
  }

  // A field at the front is decoded into the message, whatever follows.

  lemma InnerHash(x: Int32, rest: Bytes, m: InnerOp)
    requires m.hash == 0
    ensures DecodeInner(VarintField(0x08, x) + rest, m) == DecodeInner(rest, m.(hash := x))
  {
    if x == 0 {
      assert VarintField(0x08, x) + rest == rest;
    } else {
      var tail := Encode(ToUint64(x)) + rest;
      assert VarintField(0x08, x) + rest == [0x08] + tail;
      ReadTag(0x08, tail);
      ReadEnumBack(x, rest);
    }
  }

  lemma InnerBytes(tag: Byte, b: Bytes, rest: Bytes, m: InnerOp)
    requires |b| < TWO63 && (tag == 0x12 || tag == 0x1a)
    requires if tag == 0x12 then m.prefix == [] else m.suffix == []
    ensures DecodeInner(BytesField(tag, b) + rest, m) ==
            DecodeInner(rest, if tag == 0x12 then m.(prefix := b) else m.(suffix := b))
  {
    if b == [] {
      assert BytesField(tag, b) + rest == rest;
    } else {
      var tail := Encode(|b|) + b + rest;
      assert BytesField(tag, b) + rest == [tag] + tail;
      ReadTag(tag, tail);
      ReadPayloadBack(b, rest);
    }
  }

  /** Decoding an encoded inner operation gives it back. */
  lemma InnerRoundTrip(op: InnerOp)
    requires |op.prefix| < TWO63 && |op.suffix| < TWO63
    ensures DecodeInner(EncodeInner(op), NoInner) == Some(op)
  {
    var a, b, c := VarintField(0x08, op.hash), BytesField(0x12, op.prefix), BytesField(0x1a, op.suffix);
    assert EncodeInner(op) == a + (b + (c + []));
    InnerHash(op.hash, b + (c + []), NoInner);
    InnerBytes(0x12, op.prefix, c + [], InnerOp(op.hash, [], []));
    InnerBytes(0x1a, op.suffix, [], InnerOp(op.hash, op.prefix, []));
  }

  /** An enumeration that is not zero is read back with its tag. */
  lemma ReadEnumField(tag: Byte, x: Int32, rest: Bytes) returns (f: Field)
    requires 8 <= tag < 128 && tag % 8 == 0 && x != 0
    ensures ReadField(VarintField(tag, x) + rest) == Some(f) && f.number == tag / 8 && f.wireType == 0
    ensures ReadEnum(f.rest) == Some(Number(x, rest))
  {
    var tail := Encode(ToUint64(x)) + rest;
    assert VarintField(tag, x) + rest == [tag] + tail;
    ReadTag(tag, tail);
    ReadEnumBack(x, rest);
    f := Field(tag / 8, 0, tail);
  }

  lemma LeafStep(data: Bytes, m: LeafOp, f: Field, n: Number)
    requires data != [] && ReadField(data) == Some(f) && 1 <= f.number <= 4 && f.wireType == 0
    requires ReadEnum(f.rest) == Some(n)
    ensures DecodeLeaf(data, m) == DecodeLeaf(n.rest, WithLeafField(m, f.number, n.value))
  {
  }

  lemma LeafEnum(tag: Byte, x: Int32, rest: Bytes, m: LeafOp)
    requires (tag == 0x08 && m.hash == 0) || (tag == 0x10 && m.prehashKey == 0)
          || (tag == 0x18 && m.prehashValue == 0) || (tag == 0x20 && m.length == 0)
    ensures DecodeLeaf(VarintField(tag, x) + rest, m) == DecodeLeaf(rest, WithLeafField(m, tag / 8, x))
  {
    if x == 0 {
      assert VarintField(tag, x) + rest == rest;
    } else {
      var f := ReadEnumField(tag, x, rest);
      LeafStep(VarintField(tag, x) + rest, m, f, Number(x, rest));
    }
  }

  lemma LeafPrefix(b: Bytes, m: LeafOp)
    requires |b| < TWO63 && m.prefix == []
    ensures DecodeLeaf(BytesField(0x2a, b), m) == Some(m.(prefix := b))
  {
    if b != [] {
      var tail := Encode(|b|) + b + [];
      assert BytesField(0x2a, b) == [0x2a] + tail;
      ReadTag(0x2a, tail);
      ReadPayloadBack(b, []);
    }
  }

  /** Decoding an encoded leaf operation gives it back. */
  lemma LeafRoundTrip(op: LeafOp)
    requires |op.prefix| < TWO63
    ensures DecodeLeaf(EncodeLeaf(op), NoLeaf) == Some(op)
  {
    var a, b, c, d, e := VarintField(0x08, op.hash), VarintField(0x10, op.prehashKey),
                         VarintField(0x18, op.prehashValue), VarintField(0x20, op.length), BytesField(0x2a, op.prefix);
    assert EncodeLeaf(op) == a + (b + (c + (d + e)));
    LeafEnum(0x08, op.hash, b + (c + (d + e)), NoLeaf);
    LeafEnum(0x10, op.prehashKey, c + (d + e), LeafOp(op.hash, 0, 0, 0, []));
    LeafEnum(0x18, op.prehashValue, d + e, LeafOp(op.hash, op.prehashKey, 0, 0, []));
    LeafEnum(0x20, op.length, e, LeafOp(op.hash, op.prehashKey, op.prehashValue, 0, []));
    LeafPrefix(op.prefix, LeafOp(op.hash, op.prehashKey, op.prehashValue, op.length, []));
  }

  /** A message is read back with its tag. */
  lemma ReadMessageField(tag: Byte, body: Bytes, rest: Bytes) returns (f: Field)
    requires 8 <= tag < 128 && tag % 8 == 2 && |body| < TWO63
    ensures ReadField(MessageField(tag, body) + rest) == Some(f) && f.number == tag / 8 && f.wireType == 2
    ensures ReadPayload(f.rest) == Some(Payload(body, rest))
  {
    var tail := Encode(|body|) + body + rest;
    assert MessageField(tag, body) + rest == [tag] + tail;
    ReadTag(tag, tail);
    ReadPayloadBack(body, rest);
    f := Field(tag / 8, 2, tail);
  }

  lemma ExistenceStep(data: Bytes, m: ExistenceProof, f: Field, p: Payload)
    requires data != [] && ReadField(data) == Some(f) && 1 <= f.number <= 4 && f.wireType == 2
    requires ReadPayload(f.rest) == Some(p) && MergeExistence(m, f.number, p.body).Some?
    ensures DecodeExistence(data, m) == DecodeExistence(p.rest, MergeExistence(m, f.number, p.body).value)
  {
  }

  lemma ExistenceMessage(tag: Byte, body: Bytes, rest: Bytes, m: ExistenceProof)
    requires |body| < TWO63 && (tag == 0x0a || tag == 0x12 || tag == 0x1a || tag == 0x22)
    requires MergeExistence(m, tag / 8, body).Some?
    ensures DecodeExistence(MessageField(tag, body) + rest, m) ==
            DecodeExistence(rest, MergeExistence(m, tag / 8, body).value)
  {
    var f := ReadMessageField(tag, body, rest);
    ExistenceStep(MessageField(tag, body) + rest, m, f, Payload(body, rest));
  }

  predicate InnerFits(op: InnerOp) {
    |op.prefix| < TWO63 && |op.suffix| < TWO63 && |EncodeInner(op)| < TWO63
  }

  /** Every part of the message is shorter than 2^63 bytes on the wire. */
  predicate Fits(p: ExistenceProof) {
    && |p.key| < TWO63 && |p.value| < TWO63
    && (p.leaf.Some? ==> |p.leaf.value.prefix| < TWO63 && |EncodeLeaf(p.leaf.value)| < TWO63)
    && forall i :: 0 <= i < |p.path| ==> InnerFits(p.path[i])
  }

  lemma PathStep(op: InnerOp, rest: Bytes, m: ExistenceProof)
    requires InnerFits(op)
    ensures DecodeExistence(MessageField(0x22, EncodeInner(op)) + rest, m) ==
            DecodeExistence(rest, m.(path := m.path + [op]))
  {
    InnerRoundTrip(op);
    ExistenceMessage(0x22, EncodeInner(op), rest, m);
  }

  lemma {:induction false} PathRoundTrip(path: seq<InnerOp>, m: ExistenceProof)
    requires forall i :: 0 <= i < |path| ==> InnerFits(path[i])
    ensures DecodeExistence(EncodePath(path), m) == Some(m.(path := m.path + path))
  {
    if path == [] {
      assert m.path + path == m.path;
    } else {
      var m1 := ExistenceProof(m.key, m.value, m.leaf, m.path + [path[0]]);
      calc {
        DecodeExistence(EncodePath(path), m);
        { PathStep(path[0], EncodePath(path[1..]), m); }
        DecodeExistence(EncodePath(path[1..]), m1);
        { PathRoundTrip(path[1..], m1); }
        Some(ExistenceProof(m.key, m.value, m.leaf, m1.path + path[1..]));
        { assert m1.path + path[1..] == m.path + path; }
        Some(m.(path := m.path + path));
      }
    }
  }

  lemma ExistenceBytes(tag: Byte, b: Bytes, rest: Bytes, m: ExistenceProof)
    requires |b| < TWO63
    requires (tag == 0x0a && m.key == []) || (tag == 0x12 && m.value == [])
    ensures DecodeExistence(BytesField(tag, b) + rest, m) ==
            DecodeExistence(rest, if tag == 0x0a then m.(key := b) else m.(value := b))
  {
    if b == [] {
      assert BytesField(tag, b) + rest == rest;
    } else {
      ExistenceMessage(tag, b, rest, m);
    }
  }

  lemma LeafAndPath(p: ExistenceProof, m: ExistenceProof)
    requires Fits(p) && m.leaf.None? && m.path == []
    ensures DecodeExistence(LeafField(p.leaf) + EncodePath(p.path), m) == Some(m.(leaf := p.leaf, path := p.path))
  {
    var path := EncodePath(p.path);
    if p.leaf.Some? {
      LeafRoundTrip(p.leaf.value);
      ExistenceMessage(0x1a, EncodeLeaf(p.leaf.value), path, m);
    } else {
      assert LeafField(p.leaf) + path == path;
    }
    PathRoundTrip(p.path, m.(leaf := p.leaf));
    assert m.path + p.path == p.path;
  }

  /** Decoding an encoded existence proof gives it back. */
  lemma ExistenceRoundTrip(p: ExistenceProof)
    requires Fits(p)
    ensures DecodeExistence(EncodeExistence(p), NoExistence) == Some(p)
  {
    var tail := LeafField(p.leaf) + EncodePath(p.path);
    Regroup(BytesField(0x0a, p.key), BytesField(0x12, p.value), LeafField(p.leaf), EncodePath(p.path));
    ExistenceBytes(0x0a, p.key, BytesField(0x12, p.value) + tail, NoExistence);
    ExistenceBytes(0x12, p.value, tail, ExistenceProof(p.key, [], None, []));
    LeafAndPath(p, ExistenceProof(p.key, p.value, None, []));
  }
}
