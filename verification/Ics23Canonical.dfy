/** What marshalling writes, in full: the fields of a message in order, without defaults, with the shortest numbers. */
module Ics23Canonical {
  import opened Basics
  import opened Sequences
  import opened Varint
  import opened Ics23Types
  import opened Ics23Wire
  import opened Ics23Grammar
  import opened Ics23Messages

  /** A number without leading zeros: the last byte is the highest digit. */
  predicate Shortest(text: Bytes) {
    IsNumber(text) && (|text| > 1 ==> text[|text| - 1] != 0)
  }

  /** A known field that is written: not zero, and not empty unless it is a message of its own. */
  predicate WrittenField(f: WireField, messages: set<int>) {
    match f
    case EnumField(key, digits) => Shortest(key) && Shortest(digits) && DigitsValue(digits) != 0
    case PayloadField(key, length, bytes) =>
      Shortest(key) && Shortest(length) && (bytes == [] ==> NumberOf(key) in messages)
    case Unread(_) => false
  }

  function FieldNumber(f: WireField): int
    requires !f.Unread?
  {
    NumberOf(f.key)
  }

  /** The fields have numbers from lo to hi, in order; only a repeated field occurs again. */
  predicate Written<M>(s: Schema<M>, messages: set<int>, repeated: set<int>, fields: seq<WireField>, lo: int, hi: int) {
    && GoodFields(s, fields)
    && (forall i :: 0 <= i < |fields| ==> WrittenField(fields[i], messages) && lo <= FieldNumber(fields[i]) <= hi)
    && forall i, j :: 0 <= i < j < |fields| ==>
                      || FieldNumber(fields[i]) < FieldNumber(fields[j])
                      || (FieldNumber(fields[i]) == FieldNumber(fields[j]) && FieldNumber(fields[j]) in repeated)
  }

  /** The text consists of such fields, and they make up the message m. */
  ghost predicate Writes<M(!new)>(s: Schema<M>, messages: set<int>, repeated: set<int>, none: M, m: M, text: Bytes) {
    exists fields :: Written(s, messages, repeated, fields, 1, 5) && text == FieldsText(fields)
                     && PutAll(s, none, fields) == Some(m)
  }

  // ----- numbers -----

  lemma {:induction false} EncodeEnds(v: nat)
    ensures |Encode(v)| > 1 ==> Encode(v)[|Encode(v)| - 1] != 0
  {
    if v >= 128 {
      EncodeEnds(v / 128);
      if v / 128 < 128 {
        assert Encode(v) == [v % 128 + 128, v / 128];
      } else {
        assert Encode(v)[|Encode(v)| - 1] == Encode(v / 128)[|Encode(v / 128)| - 1];
      }
    }
  }

  lemma EncodeShortest(v: nat)
    requires v < TWO64
    ensures Shortest(Encode(v)) && DigitsValue(Encode(v)) == v
  {
    EncodeEnds(v);
    EncodeFits(v);
    ScanEncode(v, [], 0);
    ScanIsText(Encode(v) + [], 0);
    assert (Encode(v) + [])[..|Encode(v)|] == Encode(v);
  }

  lemma TagIs(tag: Byte)
    requires tag < 128
    ensures Shortest([tag]) && TypeOf([tag]) == tag % 8 && NumberOf([tag]) == tag / 8
  {
    assert [tag][1..] == [];
    assert DigitsValue([tag]) == tag;
  }

  // ----- fields -----

  function EnumFields(tag: Byte, x: Int32): seq<WireField> {
    if x == 0 then [] else [EnumField([tag], Encode(ToUint64(x)))]
  }

  function MessageFields(tag: Byte, body: Bytes): seq<WireField> {
    [PayloadField([tag], Encode(|body|), body)]
  }

  function BytesFields(tag: Byte, b: Bytes): seq<WireField> {
    if b == [] then [] else MessageFields(tag, b)
  }

  lemma TextOfOne(f: WireField)
    ensures FieldsText([f]) == FieldText(f)
  {
    assert [f][1..] == [];
    assert FieldText(f) + [] == FieldText(f);
  }

  lemma {:induction false} TextOfBoth(a: seq<WireField>, b: seq<WireField>)
    ensures FieldsText(a + b) == FieldsText(a) + FieldsText(b)
  {
    if a == [] {
      assert a + b == b;
    } else {
      assert (a + b)[1..] == a[1..] + b;
      TextOfBoth(a[1..], b);
      Associate(FieldText(a[0]), FieldsText(a[1..]), FieldsText(b));
    }
  }

  lemma EnumWritten<M>(s: Schema<M>, messages: set<int>, repeated: set<int>, tag: Byte, x: Int32)
    requires tag < 128 && tag % 8 == 0 && tag / 8 in s.enums
    ensures Written(s, messages, repeated, EnumFields(tag, x), tag / 8, tag / 8)
    ensures FieldsText(EnumFields(tag, x)) == VarintField(tag, x)
  {
    TagIs(tag);
    EncodeShortest(ToUint64(x));
    if x != 0 {
      TextOfOne(EnumField([tag], Encode(ToUint64(x))));
    }
  }

  lemma MessageWritten<M>(s: Schema<M>, messages: set<int>, repeated: set<int>, tag: Byte, body: Bytes)
    requires tag < 128 && tag % 8 == 2 && tag / 8 in s.payloads && |body| < TWO63
    requires body != [] || tag / 8 in messages
    ensures Written(s, messages, repeated, MessageFields(tag, body), tag / 8, tag / 8)
    ensures FieldsText(MessageFields(tag, body)) == MessageField(tag, body)
  {
    TagIs(tag);
    EncodeShortest(|body|);
    TextOfOne(PayloadField([tag], Encode(|body|), body));
    Associate([tag], Encode(|body|), body);
  }

  lemma BytesWritten<M>(s: Schema<M>, messages: set<int>, repeated: set<int>, tag: Byte, b: Bytes)
    requires tag < 128 && tag % 8 == 2 && tag / 8 in s.payloads && |b| < TWO63
    ensures Written(s, messages, repeated, BytesFields(tag, b), tag / 8, tag / 8)
    ensures FieldsText(BytesFields(tag, b)) == BytesField(tag, b)
  {
    if b != [] {
      MessageWritten(s, messages, repeated, tag, b);
    }
  }

  lemma BothWritten<M>(s: Schema<M>, messages: set<int>, repeated: set<int>, a: seq<WireField>, b: seq<WireField>,
                       lo: int, mid: int, hi: int)
    requires lo <= mid < hi
    requires Written(s, messages, repeated, a, lo, mid) && Written(s, messages, repeated, b, mid + 1, hi)
    ensures Written(s, messages, repeated, a + b, lo, hi)
    ensures FieldsText(a + b) == FieldsText(a) + FieldsText(b)
  {
    TextOfBoth(a, b);
  }

  /** Four parts with one number each. */
  lemma FourWritten<M>(s: Schema<M>, messages: set<int>, repeated: set<int>, a: seq<WireField>, b: seq<WireField>,
                       c: seq<WireField>, d: seq<WireField>)
    requires Written(s, messages, repeated, a, 1, 1) && Written(s, messages, repeated, b, 2, 2)
    requires Written(s, messages, repeated, c, 3, 3) && Written(s, messages, repeated, d, 4, 4)
    ensures Written(s, messages, repeated, a + b + c + d, 1, 4)
    ensures FieldsText(a + b + c + d) == FieldsText(a) + FieldsText(b) + FieldsText(c) + FieldsText(d)
  {
    BothWritten(s, messages, repeated, a, b, 1, 1, 2);
    BothWritten(s, messages, repeated, a + b, c, 1, 2, 3);
    BothWritten(s, messages, repeated, a + b + c, d, 1, 3, 4);
  }

  // ----- the three messages -----

  lemma Conclude<M(!new)>(s: Schema<M>, messages: set<int>, repeated: set<int>, none: M, m: M, fields: seq<WireField>,
                          text: Bytes)
    requires Sane(s) && Written(s, messages, repeated, fields, 1, 5) && FieldsText(fields) == text
    requires Decode(s, text, none) == Some(m)
    ensures Writes(s, messages, repeated, none, m, text)
  {
    FieldsRead(s, fields, [], none);
    assert text + [] == text;
  }

  lemma WiderWritten<M>(s: Schema<M>, messages: set<int>, repeated: set<int>, fields: seq<WireField>, hi: int)
    requires hi <= 5 && Written(s, messages, repeated, fields, 1, hi)
    ensures Written(s, messages, repeated, fields, 1, 5)
  {
  }

  lemma InnerFields(op: InnerOp) returns (fields: seq<WireField>)
    requires |op.prefix| < TWO63 && |op.suffix| < TWO63
    ensures Written(InnerSchema, {}, {}, fields, 1, 5) && FieldsText(fields) == EncodeInner(op)
  {
    var a, b, c := EnumFields(0x08, op.hash), BytesFields(0x12, op.prefix), BytesFields(0x1a, op.suffix);
    EnumWritten(InnerSchema, {}, {}, 0x08, op.hash);
    BytesWritten(InnerSchema, {}, {}, 0x12, op.prefix);
    BytesWritten(InnerSchema, {}, {}, 0x1a, op.suffix);
    BothWritten(InnerSchema, {}, {}, a, b, 1, 1, 2);
    BothWritten(InnerSchema, {}, {}, a + b, c, 1, 2, 3);
    WiderWritten(InnerSchema, {}, {}, a + b + c, 3);
    fields := a + b + c;
  }

  lemma InnerConcludes(text: Bytes, op: InnerOp, fields: seq<WireField>)
    requires Written(InnerSchema, {}, {}, fields, 1, 5) && FieldsText(fields) == text
    requires DecodeInner(text, NoInner) == Some(op)
    ensures Writes(InnerSchema, {}, {}, NoInner, op, text)
  {
    InnerDecodes(text, NoInner);
    Conclude(InnerSchema, {}, {}, NoInner, op, fields, text);
  }

  /** InnerOp.Marshal in full. */
  lemma InnerWritten(op: InnerOp)
    requires |op.prefix| < TWO63 && |op.suffix| < TWO63
    ensures Writes(InnerSchema, {}, {}, NoInner, op, EncodeInner(op))
  {
    var fields := InnerFields(op);
    InnerRoundTrip(op);
    InnerConcludes(EncodeInner(op), op, fields);
  }

  lemma LeafEnums(op: LeafOp) returns (fields: seq<WireField>)
    ensures Written(LeafSchema, {}, {}, fields, 1, 4)
    ensures FieldsText(fields) == VarintField(0x08, op.hash) + VarintField(0x10, op.prehashKey)
                                  + VarintField(0x18, op.prehashValue) + VarintField(0x20, op.length)
  {
    EnumWritten(LeafSchema, {}, {}, 0x08, op.hash);
    EnumWritten(LeafSchema, {}, {}, 0x10, op.prehashKey);
    EnumWritten(LeafSchema, {}, {}, 0x18, op.prehashValue);
    EnumWritten(LeafSchema, {}, {}, 0x20, op.length);
    var a, b, c := EnumFields(0x08, op.hash), EnumFields(0x10, op.prehashKey), EnumFields(0x18, op.prehashValue);
    var d := EnumFields(0x20, op.length);
    FourWritten(LeafSchema, {}, {}, a, b, c, d);
    fields := a + b + c + d;
  }

  lemma LeafParts(op: LeafOp) returns (fields: seq<WireField>)
    requires |op.prefix| < TWO63
    ensures Written(LeafSchema, {}, {}, fields, 1, 5) && FieldsText(fields) == EncodeLeaf(op)
  {
    var a := LeafEnums(op);
    var b := BytesFields(0x2a, op.prefix);
    BytesWritten(LeafSchema, {}, {}, 0x2a, op.prefix);
    BothWritten(LeafSchema, {}, {}, a, b, 1, 4, 5);
    fields := a + b;
  }

  lemma LeafConcludes(text: Bytes, none: LeafOp, op: LeafOp, fields: seq<WireField>)
    requires Written(LeafSchema, {}, {}, fields, 1, 5) && FieldsText(fields) == text
    requires DecodeLeaf(text, none) == Some(op)
    ensures Writes(LeafSchema, {}, {}, none, op, text)
  {
    assert Decode(LeafSchema, text, none) == Some(op) by {
      LeafDecodes(text, none);
    }
    Conclude(LeafSchema, {}, {}, none, op, fields, text);
  }

  /** LeafOp.Marshal in full. */
  lemma LeafWritten(op: LeafOp)
    requires |op.prefix| < TWO63
    ensures Writes(LeafSchema, {}, {}, NoLeaf, op, EncodeLeaf(op))
  {
    var fields := LeafParts(op);
    LeafRoundTrip(op);
    LeafConcludes(EncodeLeaf(op), NoLeaf, op, fields);
  }

  function LeafFields(leaf: Option<LeafOp>): seq<WireField> {
    if leaf.None? then [] else MessageFields(0x1a, EncodeLeaf(leaf.value))
  }

  function PathFields(path: seq<InnerOp>): seq<WireField> {
    if path == [] then [] else MessageFields(0x22, EncodeInner(path[0])) + PathFields(path[1..])
  }

  lemma {:induction false} PathWritten(path: seq<InnerOp>)
    requires forall i :: 0 <= i < |path| ==> InnerFits(path[i])
    ensures Written(ExistenceSchema, {3, 4}, {4}, PathFields(path), 4, 4)
    ensures FieldsText(PathFields(path)) == EncodePath(path)
  {
    if path != [] {
      PathWritten(path[1..]);
      MessageWritten(ExistenceSchema, {3, 4}, {4}, 0x22, EncodeInner(path[0]));
      TextOfBoth(MessageFields(0x22, EncodeInner(path[0])), PathFields(path[1..]));
    }
  }

  lemma LeafFieldWritten(leaf: Option<LeafOp>)
    requires leaf.Some? ==> |EncodeLeaf(leaf.value)| < TWO63
    ensures Written(ExistenceSchema, {3, 4}, {4}, LeafFields(leaf), 3, 3)
    ensures FieldsText(LeafFields(leaf)) == LeafField(leaf)
  {
    if leaf.Some? {
      MessageWritten(ExistenceSchema, {3, 4}, {4}, 0x1a, EncodeLeaf(leaf.value));
    }
  }

  lemma ExistenceFields(p: ExistenceProof) returns (fields: seq<WireField>)
    requires Ics23Wire.Fits(p)
    ensures Written(ExistenceSchema, {3, 4}, {4}, fields, 1, 4) && FieldsText(fields) == EncodeExistence(p)
  {
    var a, b, c, d := BytesFields(0x0a, p.key), BytesFields(0x12, p.value), LeafFields(p.leaf), PathFields(p.path);
    BytesWritten(ExistenceSchema, {3, 4}, {4}, 0x0a, p.key);
    BytesWritten(ExistenceSchema, {3, 4}, {4}, 0x12, p.value);
    LeafFieldWritten(p.leaf);
    PathWritten(p.path);
    FourWritten(ExistenceSchema, {3, 4}, {4}, a, b, c, d);
    fields := a + b + c + d;
  }

  lemma ExistenceConcludes(text: Bytes, p: ExistenceProof, fields: seq<WireField>)
    requires Written(ExistenceSchema, {3, 4}, {4}, fields, 1, 4) && FieldsText(fields) == text
    requires DecodeExistence(text, NoExistence) == Some(p)
    ensures Writes(ExistenceSchema, {3, 4}, {4}, NoExistence, p, text)
  {
    WiderWritten(ExistenceSchema, {3, 4}, {4}, fields, 4);
    ExistenceDecodes(text, NoExistence);
    Conclude(ExistenceSchema, {3, 4}, {4}, NoExistence, p, fields, text);
  }

  /** ExistenceProof.Marshal in full: only the steps of the path repeat a number. */
  lemma ExistenceWritten(p: ExistenceProof)
    requires Ics23Wire.Fits(p)
    ensures Writes(ExistenceSchema, {3, 4}, {4}, NoExistence, p, EncodeExistence(p))
  {
    var fields := ExistenceFields(p);
    ExistenceRoundTrip(p);
    ExistenceConcludes(EncodeExistence(p), p, fields);
  }
}
