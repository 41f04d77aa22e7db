/** Decoding of the three messages, in full: which strings are messages, and what they mean. */
module Ics23Messages {
  import opened Basics
  import opened Sequences
  import opened Varint
  import opened Ics23Types
  import opened Ics23Wire
  import opened Ics23Grammar

  /** A message type: the numbers of its enumerations and of its payloads, and what they do to a message. */
  datatype Schema<!M> = Schema(enums: set<int>, payloads: set<int>,
                               putEnum: (M, int, Int32) -> M, putPayload: (M, int, Bytes) -> Option<M>)

  predicate Sane<M>(s: Schema<M>) {
    && (forall n :: n in s.enums ==> n > 0 && n !in s.payloads)
    && (forall n :: n in s.payloads ==> n > 0)
  }

  const InnerSchema: Schema<InnerOp> := Schema(
    {1}, {2, 3},
    (m: InnerOp, n: int, x: Int32) => m.(hash := x),
    (m: InnerOp, n: int, b: Bytes) => Some(if n == 2 then m.(prefix := b) else m.(suffix := b)))

  const LeafSchema: Schema<LeafOp> := Schema(
    {1, 2, 3, 4}, {5},
    (m: LeafOp, n: int, x: Int32) => if n == 1 then m.(hash := x) else if n == 2 then m.(prehashKey := x)
                                     else if n == 3 then m.(prehashValue := x) else m.(length := x),
    (m: LeafOp, n: int, b: Bytes) => Some(m.(prefix := b)))

  const ExistenceSchema: Schema<ExistenceProof> := Schema(
    {}, {1, 2, 3, 4},
    (m: ExistenceProof, n: int, x: Int32) => m,
    (m: ExistenceProof, n: int, b: Bytes) => if 1 <= n <= 4 then MergeExistence(m, n, b) else None)

  // ----- messages as sequences of fields -----

  datatype WireField =
    | EnumField(key: Bytes, digits: Bytes)
    | PayloadField(key: Bytes, length: Bytes, bytes: Bytes)
    | Unread(pieces: seq<Piece>)

  predicate GoodField<M>(s: Schema<M>, f: WireField) {
    match f
    case EnumField(key, digits) =>
      IsNumber(key) && TypeOf(key) == 0 && NumberOf(key) in s.enums && IsNumber(digits)
    case PayloadField(key, length, bytes) =>
      IsNumber(key) && TypeOf(key) == 2 && NumberOf(key) in s.payloads && Counts(length, bytes)
    case Unread(pieces) =>
      && Closes(pieces, 0)
      && var n := NumberOf(pieces[0].key); n > 0 && n !in s.enums && n !in s.payloads
  }

  predicate GoodFields<M>(s: Schema<M>, fields: seq<WireField>) {
    forall i :: 0 <= i < |fields| ==> GoodField(s, fields[i])
  }

  function FieldText(f: WireField): Bytes {
    match f
    case EnumField(key, digits) => key + digits
    case PayloadField(key, length, bytes) => key + (length + bytes)
    case Unread(pieces) => PiecesText(pieces)
  }

  function FieldsText(fields: seq<WireField>): Bytes {
    if fields == [] then [] else FieldText(fields[0]) + FieldsText(fields[1..])
  }

  /** What a field makes of a message; one that is not known leaves it as it is. */
  function Put<M>(s: Schema<M>, m: M, f: WireField): Option<M> {
    match f
    case EnumField(key, digits) => Some(s.putEnum(m, NumberOf(key), ToInt32(DigitsValue(digits))))
    case PayloadField(key, length, bytes) => s.putPayload(m, NumberOf(key), bytes)
    case Unread(_) => Some(m)
  }

  /** The fields one after the other, the last of a number winning. */
  function PutAll<M>(s: Schema<M>, m: M, fields: seq<WireField>): Option<M> {
    if fields == [] then Some(m)
    else match Put(s, m, fields[0])
         case None => None
         case Some(m1) => PutAll(s, m1, fields[1..])
  }

  // ----- decoding by schema -----

  /** One field at the front, and what is behind it. */
  function DecodeField<M>(s: Schema<M>, data: Bytes, m: M): (r: Option<(M, Bytes)>)
    ensures r.Some? ==> |r.value.1| < |data|
  {
    match ReadField(data)
    case None => None
    case Some(f) =>
      if f.number in s.enums then
        if f.wireType != 0 then None
        else match ReadEnum(f.rest)
             case None => None
             case Some(n) => Some((s.putEnum(m, f.number, n.value), n.rest))
      else if f.number in s.payloads then
        if f.wireType != 2 then None
        else match ReadPayload(f.rest)
             case None => None
             case Some(p) =>
               match s.putPayload(m, f.number, p.body)
               case None => None
               case Some(m1) => Some((m1, p.rest))
      else
        match SkipField(data)
        case None => None
        case Some(rest) => Some((m, rest))
  }

  function Decode<M>(s: Schema<M>, data: Bytes, m: M): Option<M>
    decreases |data|
  {
    if data == [] then Some(m)
    else match DecodeField(s, data, m)
         case None => None
         case Some(next) => Decode(s, next.1, next.0)
  }

  lemma InnerStep(data: Bytes, m: InnerOp)
    requires data != []
    ensures DecodeInner(data, m) == match DecodeField(InnerSchema, data, m)
                                      case None => None
                                      case Some(next) => DecodeInner(next.1, next.0)
  {
  }

  lemma {:induction false} InnerDecodes(data: Bytes, m: InnerOp)
    ensures DecodeInner(data, m) == Decode(InnerSchema, data, m)
    decreases |data|
  {
    if data != [] {
      InnerStep(data, m);
      match DecodeField(InnerSchema, data, m)
      case None =>
      case Some(next) => InnerDecodes(next.1, next.0);
    }
  }

  lemma LeafStep(data: Bytes, m: LeafOp)
    requires data != []
    ensures DecodeLeaf(data, m) == match DecodeField(LeafSchema, data, m)
                                     case None => None
                                     case Some(next) => DecodeLeaf(next.1, next.0)
  {
    match ReadField(data)
    case None =>
    case Some(f) =>
      assert f.number in LeafSchema.enums <==> 1 <= f.number <= 4;
      assert f.number in LeafSchema.payloads <==> f.number == 5;
  }

  lemma {:induction false} LeafDecodes(data: Bytes, m: LeafOp)
    ensures DecodeLeaf(data, m) == Decode(LeafSchema, data, m)
    decreases |data|
  {
    if data != [] {
      LeafStep(data, m);
      match DecodeField(LeafSchema, data, m)
      case None =>
      case Some(next) => LeafDecodes(next.1, next.0);
    }
  }

  lemma ExistenceStep(data: Bytes, m: ExistenceProof)
    requires data != []
    ensures DecodeExistence(data, m) == match DecodeField(ExistenceSchema, data, m)
                                          case None => None
                                          case Some(next) => DecodeExistence(next.1, next.0)
  {
    match ReadField(data)
    case None =>
    case Some(f) => assert f.number in ExistenceSchema.payloads <==> 1 <= f.number <= 4;
  }

  lemma {:induction false} ExistenceDecodes(data: Bytes, m: ExistenceProof)
    ensures DecodeExistence(data, m) == Decode(ExistenceSchema, data, m)
    decreases |data|
  {
    if data != [] {
      ExistenceStep(data, m);
      match DecodeField(ExistenceSchema, data, m)
      case None =>
      case Some(next) => ExistenceDecodes(next.1, next.0);
    }
  }

  // ----- fields are read back -----

  lemma KeyReads(key: Bytes, rest: Bytes)
    requires IsNumber(key) && TypeOf(key) != 4 && NumberOf(key) > 0
    ensures ReadField(key + rest) == Some(Field(NumberOf(key), TypeOf(key), rest))
  {
    NumberReads(key, rest);
    TypeIs(key);
  }

  lemma EnumReads(digits: Bytes, rest: Bytes)
    requires IsNumber(digits)
    ensures ReadEnum(digits + rest) == Some(Number(ToInt32(DigitsValue(digits)), rest))
  {
    NumberReads(digits, rest);
  }

  lemma PayloadReads(length: Bytes, bytes: Bytes, rest: Bytes)
    requires Counts(length, bytes)
    ensures ReadPayload(length + bytes + rest) == Some(Payload(bytes, rest))
  {
    var data := length + bytes + rest;
    Associate(length, bytes, rest);
    NumberReads(length, bytes + rest);
    assert data[|length|..|length| + |bytes|] == bytes && data[|length| + |bytes|..] == rest;
  }

  lemma PiecesRead(pieces: seq<Piece>, rest: Bytes)
    requires Closes(pieces, 0)
    ensures SkipField(PiecesText(pieces) + rest) == Some(rest)
  {
    var data := PiecesText(pieces) + rest;
    SkipReads(pieces, rest, 0);
    assert data[|PiecesText(pieces)|..] == rest;
  }

  /** The key of the first piece is at the front. */
  lemma FirstKey(pieces: seq<Piece>, rest: Bytes) returns (more: Bytes)
    requires Closes(pieces, 0)
    ensures IsNumber(pieces[0].key) && TypeOf(pieces[0].key) != 4
    ensures PiecesText(pieces) + rest == pieces[0].key + more
  {
    more := BodyText(pieces[0].body) + PiecesText(pieces[1..]) + rest;
    Regroup(pieces[0].key, BodyText(pieces[0].body), PiecesText(pieces[1..]), rest);
    Associate(BodyText(pieces[0].body), PiecesText(pieces[1..]), rest);
  }

  /** A field at the front is put into the message. */
  lemma FieldReads<M>(s: Schema<M>, f: WireField, rest: Bytes, m: M)
    requires Sane(s) && GoodField(s, f)
    ensures FieldText(f) + rest != []
    ensures DecodeField(s, FieldText(f) + rest, m) ==
            if Put(s, m, f).None? then None else Some((Put(s, m, f).value, rest))
  {
    match f
    case EnumField(key, digits) =>
      Associate(key, digits, rest);
      KeyReads(key, digits + rest);
      EnumReads(digits, rest);
    case PayloadField(key, length, bytes) =>
      Associate(key, length + bytes, rest);
      KeyReads(key, length + bytes + rest);
      PayloadReads(length, bytes, rest);
    case Unread(pieces) =>
      var more := FirstKey(pieces, rest);
      KeyReads(pieces[0].key, more);
      PiecesRead(pieces, rest);
  }

  /** Fields at the front are put into the message one by one, whatever follows. */
  lemma {:induction false} FieldsRead<M>(s: Schema<M>, fields: seq<WireField>, rest: Bytes, m: M)
    requires Sane(s) && GoodFields(s, fields)
    ensures Decode(s, FieldsText(fields) + rest, m) ==
            if PutAll(s, m, fields).None? then None else Decode(s, rest, PutAll(s, m, fields).value)
    decreases |fields|
  {
    if fields == [] {
      assert FieldsText(fields) + rest == rest;
    } else {
      var more := FieldsText(fields[1..]) + rest;
      Associate(FieldText(fields[0]), FieldsText(fields[1..]), rest);
      FieldReads(s, fields[0], more, m);
      if Put(s, m, fields[0]).Some? {
        FieldsRead(s, fields[1..], rest, Put(s, m, fields[0]).value);
      }
    }
  }

  // ----- nothing else is read -----

  lemma ReadKey(data: Bytes) returns (key: Bytes)
    requires ReadField(data).Some?
    ensures IsNumber(key) && data == key + ReadField(data).value.rest
    ensures ReadField(data).value == Field(NumberOf(key), TypeOf(key), ReadField(data).value.rest)
    ensures NumberOf(key) > 0 && TypeOf(key) != 4
  {
    NumberIs(data);
    key := data[..Scan(data).value.length];
    TypeIs(key);
  }

  lemma ReadDigits(data: Bytes) returns (digits: Bytes)
    requires ReadEnum(data).Some?
    ensures IsNumber(digits) && data == digits + ReadEnum(data).value.rest
    ensures ReadEnum(data).value.value == ToInt32(DigitsValue(digits))
  {
    NumberIs(data);
    digits := data[..Scan(data).value.length];
  }

  lemma ReadCounted(data: Bytes) returns (length: Bytes)
    requires ReadPayload(data).Some?
    ensures Counts(length, ReadPayload(data).value.body)
    ensures data == length + ReadPayload(data).value.body + ReadPayload(data).value.rest
  {
    NumberIs(data);
    length := data[..Scan(data).value.length];
  }

  lemma ReadPieces(data: Bytes) returns (pieces: seq<Piece>)
    requires SkipField(data).Some?
    ensures Closes(pieces, 0) && data == PiecesText(pieces) + SkipField(data).value
  {
    pieces := SkippedIs(data);
  }

  lemma SameKey(a: Bytes, x: Bytes, b: Bytes, y: Bytes)
    requires IsNumber(a) && IsNumber(b) && a + x == b + y
    ensures a == b
  {
    NumberReads(a, x);
    NumberReads(b, y);
    assert a == (a + x)[..|a|] && b == (b + y)[..|b|];
  }

  lemma FieldIs<M>(s: Schema<M>, data: Bytes, m: M) returns (f: WireField)
    requires DecodeField(s, data, m).Some?
    ensures GoodField(s, f) && data == FieldText(f) + DecodeField(s, data, m).value.1
    ensures Put(s, m, f) == Some(DecodeField(s, data, m).value.0)
  {
    var key := ReadKey(data);
    var read := ReadField(data).value;
    if read.number in s.enums {
      var digits := ReadDigits(read.rest);
      f := EnumField(key, digits);
      Associate(key, digits, ReadEnum(read.rest).value.rest);
    } else if read.number in s.payloads {
      var length := ReadCounted(read.rest);
      var p := ReadPayload(read.rest).value;
      f := PayloadField(key, length, p.body);
      Associate(key, length + p.body, p.rest);
    } else {
      var pieces := ReadPieces(data);
      var more := FirstKey(pieces, SkipField(data).value);
      SameKey(key, read.rest, pieces[0].key, more);
      f := Unread(pieces);
    }
  }

  lemma {:induction false} FieldsAre<M>(s: Schema<M>, data: Bytes, m: M) returns (fields: seq<WireField>)
    requires Decode(s, data, m).Some?
    ensures GoodFields(s, fields) && data == FieldsText(fields) && PutAll(s, m, fields) == Decode(s, data, m)
    decreases |data|
  {
    if data == [] {
      fields := [];
    } else {
      var f := FieldIs(s, data, m);
      var next := DecodeField(s, data, m).value;
      var rest := FieldsAre(s, next.1, next.0);
      fields := [f] + rest;
      assert fields[1..] == rest;
    }
  }

  /** The strings that decode are exactly the sequences of fields, and decode to what the fields make of the message. */
  lemma DecodeExactly<M>(s: Schema<M>, data: Bytes, m: M, r: M)
    requires Sane(s)
    ensures Decode(s, data, m) == Some(r) <==>
            exists fields :: GoodFields(s, fields) && data == FieldsText(fields) && PutAll(s, m, fields) == Some(r)
  {
    if Decode(s, data, m) == Some(r) {
      var fields := FieldsAre(s, data, m);
    }
    forall fields | GoodFields(s, fields) && data == FieldsText(fields) && PutAll(s, m, fields) == Some(r)
      ensures Decode(s, data, m) == Some(r)
    {
      FieldsRead(s, fields, [], m);
      assert data + [] == data;
    }
  }

  ghost predicate Means<M(!new)>(s: Schema<M>, data: Bytes, m: M, r: M) {
    exists fields :: GoodFields(s, fields) && data == FieldsText(fields) && PutAll(s, m, fields) == Some(r)
  }

  /** InnerOp.Unmarshal, in full. */
  lemma InnerExactly(data: Bytes, m: InnerOp, r: InnerOp)
    ensures DecodeInner(data, m) == Some(r) <==> Means(InnerSchema, data, m, r)
  {
    InnerDecodes(data, m);
    DecodeExactly(InnerSchema, data, m, r);
  }

  /** LeafOp.Unmarshal, in full. */
  lemma LeafExactly(data: Bytes, m: LeafOp, r: LeafOp)
    ensures DecodeLeaf(data, m) == Some(r) <==> Means(LeafSchema, data, m, r)
  {
    LeafDecodes(data, m);
    DecodeExactly(LeafSchema, data, m, r);
  }

  /** ExistenceProof.Unmarshal, in full. */
  lemma ExistenceExactly(data: Bytes, m: ExistenceProof, r: ExistenceProof)
    ensures DecodeExistence(data, m) == Some(r) <==> Means(ExistenceSchema, data, m, r)
  {
    ExistenceDecodes(data, m);
    DecodeExactly(ExistenceSchema, data, m, r);
  }

  // ----- unknown fields and repeated messages -----

  /** A field, however nested, with a number that the message does not have. */
  predicate NotKnown<M>(s: Schema<M>, u: Unknown) {
    && GoodUnknown(u)
    && var n := NumberOf(PiecesOf(u)[0].key); n > 0 && n !in s.enums && n !in s.payloads
  }

  /** Behind any fields and in front of anything, an unknown field changes nothing. */
  lemma UnknownIgnored<M>(s: Schema<M>, fields: seq<WireField>, u: Unknown, rest: Bytes, m: M)
    requires Sane(s) && GoodFields(s, fields) && NotKnown(s, u)
    ensures Decode(s, FieldsText(fields) + (UnknownText(u) + rest), m) == Decode(s, FieldsText(fields) + rest, m)
  {
    FieldsRead(s, fields, rest, m);
    FieldsRead(s, fields, UnknownText(u) + rest, m);
    UnknownCloses(u);
    if PutAll(s, m, fields).Some? {
      FieldReads(s, Unread(PiecesOf(u)), rest, PutAll(s, m, fields).value);
    }
  }

  lemma InnerIgnores(fields: seq<WireField>, u: Unknown, rest: Bytes)
    requires GoodFields(InnerSchema, fields) && NotKnown(InnerSchema, u)
    ensures DecodeInner(FieldsText(fields) + (UnknownText(u) + rest), NoInner) ==
            DecodeInner(FieldsText(fields) + rest, NoInner)
  {
    InnerDecodes(FieldsText(fields) + (UnknownText(u) + rest), NoInner);
    InnerDecodes(FieldsText(fields) + rest, NoInner);
    UnknownIgnored(InnerSchema, fields, u, rest, NoInner);
  }

  lemma LeafIgnores(fields: seq<WireField>, u: Unknown, rest: Bytes)
    requires GoodFields(LeafSchema, fields) && NotKnown(LeafSchema, u)
    ensures DecodeLeaf(FieldsText(fields) + (UnknownText(u) + rest), NoLeaf) ==
            DecodeLeaf(FieldsText(fields) + rest, NoLeaf)
  {
    LeafDecodes(FieldsText(fields) + (UnknownText(u) + rest), NoLeaf);
    LeafDecodes(FieldsText(fields) + rest, NoLeaf);
    UnknownIgnored(LeafSchema, fields, u, rest, NoLeaf);
  }

  lemma ExistenceIgnores(fields: seq<WireField>, u: Unknown, rest: Bytes)
    requires GoodFields(ExistenceSchema, fields) && NotKnown(ExistenceSchema, u)
    ensures DecodeExistence(FieldsText(fields) + (UnknownText(u) + rest), NoExistence) ==
            DecodeExistence(FieldsText(fields) + rest, NoExistence)
  {
    ExistenceDecodes(FieldsText(fields) + (UnknownText(u) + rest), NoExistence);
    ExistenceDecodes(FieldsText(fields) + rest, NoExistence);
    UnknownIgnored(ExistenceSchema, fields, u, rest, NoExistence);
  }

  /** Decoding each of the three messages is unchanged by unknown fields anywhere between known ones. */
  lemma UnknownFieldsIgnored(inner: seq<WireField>, leaf: seq<WireField>, existence: seq<WireField>, u: Unknown,
                             rest: Bytes)
    ensures GoodFields(InnerSchema, inner) && NotKnown(InnerSchema, u) ==>
            DecodeInner(FieldsText(inner) + (UnknownText(u) + rest), NoInner) ==
            DecodeInner(FieldsText(inner) + rest, NoInner)
    ensures GoodFields(LeafSchema, leaf) && NotKnown(LeafSchema, u) ==>
            DecodeLeaf(FieldsText(leaf) + (UnknownText(u) + rest), NoLeaf) ==
            DecodeLeaf(FieldsText(leaf) + rest, NoLeaf)
    ensures GoodFields(ExistenceSchema, existence) && NotKnown(ExistenceSchema, u) ==>
            DecodeExistence(FieldsText(existence) + (UnknownText(u) + rest), NoExistence) ==
            DecodeExistence(FieldsText(existence) + rest, NoExistence)
  {
    if GoodFields(InnerSchema, inner) && NotKnown(InnerSchema, u) {
      InnerIgnores(inner, u, rest);
    }
    if GoodFields(LeafSchema, leaf) && NotKnown(LeafSchema, u) {
      LeafIgnores(leaf, u, rest);
    }
    if GoodFields(ExistenceSchema, existence) && NotKnown(ExistenceSchema, u) {
      ExistenceIgnores(existence, u, rest);
    }
  }

  /** Two leaves in one proof are merged: together they mean what one leaf with the fields of both means. */
  lemma LeavesMerge(m: ExistenceProof, x: Bytes, y: Bytes)
    requires MergeExistence(m, 3, x).Some?
    ensures MergeExistence(MergeExistence(m, 3, x).value, 3, y) == MergeExistence(m, 3, x + y)
  {
    var before := if m.leaf.None? then NoLeaf else m.leaf.value;
    LeafDecodes(x, before);
    var fields := FieldsAre(LeafSchema, x, before);
    FieldsRead(LeafSchema, fields, y, before);
    LeafDecodes(x + y, before);
    LeafDecodes(y, DecodeLeaf(x, before).value);
  }
}
