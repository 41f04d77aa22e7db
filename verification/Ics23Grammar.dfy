/**
 Which strings the decoders accept, without the decoders: a message is a sequence of fields, a field that is not known
 is a balanced sequence of pieces, and numbers are texts of at most ten base-128 digits.
 */
module Ics23Grammar {
  import opened Basics
  import opened Sequences
  import opened Varint
  import opened Ics23Types
  import opened Ics23Wire

  // ----- pieces of a field that is skipped -----

  /** What stands behind the key of a piece. */
  datatype Body =
    | Digits(text: Bytes)
    | Eight(bytes: Bytes)
    | Counted(length: Bytes, bytes: Bytes)
    | Opening
    | Closing
    | Four(bytes: Bytes)

  datatype Piece = Piece(key: Bytes, body: Body)

  function WireType(b: Body): nat {
    match b
    case Digits(_) => 0
    case Eight(_) => 1
    case Counted(_, _) => 2
    case Opening => 3
    case Closing => 4
    case Four(_) => 5
  }

  function BodyText(b: Body): Bytes {
    match b
    case Digits(text) => text
    case Eight(bytes) => bytes
    case Counted(length, bytes) => length + bytes
    case Opening => []
    case Closing => []
    case Four(bytes) => bytes
  }

  predicate IsNumber(text: Bytes) {
    VarintText(text, MAX_VARINT_LEN)
  }

  /** The length as it is written, in 64 bits, is that of the bytes, and not negative. */
  predicate Counts(length: Bytes, bytes: Bytes) {
    IsNumber(length) && DigitsValue(length) % TWO64 == |bytes| < TWO63
  }

  predicate GoodBody(b: Body) {
    match b
    case Digits(text) => IsNumber(text)
    case Eight(bytes) => |bytes| == 8
    case Counted(length, bytes) => Counts(length, bytes)
    case Opening => true
    case Closing => true
    case Four(bytes) => |bytes| == 4
  }

  /** The low three bits. */
  function TypeOf(key: Bytes): nat
    requires key != []
  {
    key[0] % 8
  }

  lemma TypeIs(key: Bytes)
    requires IsNumber(key)
    ensures DigitsValue(key) % TWO64 % 8 == TypeOf(key)
  {
    var high := DigitsValue(key[1..]);
    WrapKeepsType(DigitsValue(key));
    AddEights(16 * high, key[0] % 128);
    AddEights(16 * (key[0] / 128), key[0] % 128);
  }

  lemma AddEights(x: nat, r: nat)
    ensures (8 * x + r) % 8 == r % 8
  {
  }

  lemma WrapKeepsType(v: nat)
    ensures v % TWO64 % 8 == v % 8
  {
    AddEights(0x2000_0000_0000_0000 * (v / TWO64), v % TWO64);
  }

  function NumberOf(key: Bytes): Int32 {
    ToInt32(DigitsValue(key) % TWO64 / 8)
  }

  predicate GoodPiece(p: Piece) {
    IsNumber(p.key) && GoodBody(p.body) && TypeOf(p.key) == WireType(p.body)
  }

  function PieceText(p: Piece): Bytes {
    p.key + BodyText(p.body)
  }

  function PiecesText(pieces: seq<Piece>): Bytes {
    if pieces == [] then [] else PieceText(pieces[0]) + PiecesText(pieces[1..])
  }

  function DepthAfter(depth: nat, b: Body): nat
    requires b.Closing? ==> depth > 0
  {
    if b.Opening? then depth + 1 else if b.Closing? then depth - 1 else depth
  }

  /** The last piece, and none before it, leaves no group open. */
  predicate Closes(pieces: seq<Piece>, depth: nat) {
    && pieces != [] && GoodPiece(pieces[0]) && (pieces[0].body.Closing? ==> depth > 0)
    && var d := DepthAfter(depth, pieces[0].body);
       if d == 0 then |pieces| == 1 else Closes(pieces[1..], d)
  }

  /** A whole field, whatever its number, with everything nested in it. */
  ghost predicate IsField(text: Bytes) {
    exists pieces :: Closes(pieces, 0) && text == PiecesText(pieces)
  }

  lemma NumberReads(text: Bytes, rest: Bytes)
    requires IsNumber(text)
    ensures Scan(text + rest) == Some(Scanned(DigitsValue(text), |text|)) && (text + rest)[|text|..] == rest
  {
    ScanReads(text, rest, 0);
  }

  lemma DigitsSkip(data: Bytes, at: nat, text: Bytes, tail: Bytes, depth: nat)
    requires at <= |data| && data[at..] == text + tail && IsNumber(text)
    ensures SkipPayload(data, at, 0, depth) == Some(Position(at + |text|, depth))
  {
    NumberReads(text, tail);
  }

  lemma CountedSkips(data: Bytes, at: nat, length: Bytes, bytes: Bytes, tail: Bytes, depth: nat)
    requires at <= |data| && data[at..] == length + bytes + tail && Counts(length, bytes)
    ensures SkipPayload(data, at, 2, depth) == Some(Position(at + |length| + |bytes|, depth))
  {
    Associate(length, bytes, tail);
    NumberReads(length, bytes + tail);
  }

  lemma BodySkips(data: Bytes, at: nat, b: Body, tail: Bytes, depth: nat)
    requires at <= |data| && data[at..] == BodyText(b) + tail && GoodBody(b) && (b.Closing? ==> depth > 0)
    ensures SkipPayload(data, at, WireType(b), depth) == Some(Position(at + |BodyText(b)|, DepthAfter(depth, b)))
  {
    match b
    case Digits(text) => DigitsSkip(data, at, text, tail, depth);
    case Counted(length, bytes) => CountedSkips(data, at, length, bytes, tail, depth);
    case _ =>
  }

  /** At a position there is a piece, and behind it the tail. */
  predicate Fits(data: Bytes, pos: nat, p: Piece, tail: Bytes, depth: nat) {
    pos < |data| && data[pos..] == PieceText(p) + tail && GoodPiece(p) && (p.body.Closing? ==> depth > 0)
  }

  lemma PieceSkips(data: Bytes, pos: nat, p: Piece, tail: Bytes, depth: nat)
    requires Fits(data, pos, p, tail, depth)
    ensures SkipNext(data, pos, depth) == Some(Position(pos + |PieceText(p)|, DepthAfter(depth, p.body)))
  {
    Associate(p.key, BodyText(p.body), tail);
    NumberReads(p.key, BodyText(p.body) + tail);
    TypeIs(p.key);
    assert data[pos + |p.key|..] == data[pos..][|p.key|..];
    BodySkips(data, pos + |p.key|, p.body, tail, depth);
  }

  /** Where a piece leads a way of skipping. */
  function Onwards(skip: (nat, nat) -> Option<nat>, pos: nat, p: Piece, depth: nat): Option<nat>
    requires p.body.Closing? ==> depth > 0
  {
    var at, d := pos + |PieceText(p)|, DepthAfter(depth, p.body);
    if d == 0 then Some(at) else skip(at, d)
  }

  /** A way of skipping steps over pieces. */
  ghost predicate StepsOver(data: Bytes, skip: (nat, nat) -> Option<nat>) {
    forall pos: nat, p, tail, depth: nat :: Fits(data, pos, p, tail, depth) ==>
                                            skip(pos, depth) == Onwards(skip, pos, p, depth)
  }

  /** A way of skipping is that of skipProofs. */
  ghost predicate IsSkip(data: Bytes, skip: (nat, nat) -> Option<nat>) {
    forall pos: nat, depth: nat :: skip(pos, depth) == Skip(data, pos, depth)
  }

  lemma SkipStepsOn(data: Bytes, skip: (nat, nat) -> Option<nat>, pos: nat, p: Piece, tail: Bytes, depth: nat)
    requires Fits(data, pos, p, tail, depth) && IsSkip(data, skip)
    ensures skip(pos, depth) == Onwards(skip, pos, p, depth)
  {
    PieceSkips(data, pos, p, tail, depth);
  }

  lemma SkipStepsOver(data: Bytes, skip: (nat, nat) -> Option<nat>)
    requires IsSkip(data, skip)
    ensures StepsOver(data, skip)
  {
    forall pos: nat, p, tail, depth: nat | Fits(data, pos, p, tail, depth)
      ensures skip(pos, depth) == Onwards(skip, pos, p, depth)
    {
      SkipStepsOn(data, skip, pos, p, tail, depth);
    }
  }

  lemma FitsFirst(data: Bytes, skip: (nat, nat) -> Option<nat>, pos: nat, p: Piece, more: Bytes, rest: Bytes,
                  depth: nat)
    requires StepsOver(data, skip) && pos < |data| && data[pos..] == PieceText(p) + more + rest
    requires GoodPiece(p) && (p.body.Closing? ==> depth > 0)
    ensures skip(pos, depth) == Onwards(skip, pos, p, depth)
    ensures pos + |PieceText(p)| <= |data| && data[pos + |PieceText(p)|..] == more + rest
  {
    Associate(PieceText(p), more, rest);
    assert Fits(data, pos, p, more + rest, depth);
    assert data[pos + |PieceText(p)|..] == data[pos..][|PieceText(p)|..];
  }

  lemma {:induction false} PiecesSkip(data: Bytes, skip: (nat, nat) -> Option<nat>,
                                      pos: nat, pieces: seq<Piece>, rest: Bytes, depth: nat)
    requires StepsOver(data, skip)
    requires pos <= |data| && data[pos..] == PiecesText(pieces) + rest && Closes(pieces, depth)
    ensures skip(pos, depth) == Some(pos + |PiecesText(pieces)|)
    decreases |pieces|
  {
    var p := pieces[0];
    FitsFirst(data, skip, pos, p, PiecesText(pieces[1..]), rest, depth);
    if DepthAfter(depth, p.body) > 0 {
      PiecesSkip(data, skip, pos + |PieceText(p)|, pieces[1..], rest, DepthAfter(depth, p.body));
    }
  }

  lemma NumberIs(data: Bytes)
    requires Scan(data).Some?
    ensures var n := Scan(data).value.length;
            IsNumber(data[..n]) && DigitsValue(data[..n]) == Scan(data).value.value && data == data[..n] + data[n..]
  {
    ScanIsText(data, 0);
  }

  lemma CountedBody(data: Bytes, at: nat, end: nat)
    requires at <= end <= |data| && Scan(data[at..]).Some?
    requires var v := Scan(data[at..]).value; v.value % TWO64 < TWO63 && end == at + v.length + v.value % TWO64
    ensures var n := Scan(data[at..]).value.length;
            && n <= end - at && Counts(data[at..at + n], data[at + n..end])
            && data[at..end] == data[at..at + n] + data[at + n..end]
  {
    NumberIs(data[at..]);
    var n := Scan(data[at..]).value.length;
    assert data[at..][..n] == data[at..at + n];
  }

  /** What is skipped is the body of a piece, if it ends within the data. */
  lemma SkippedBody(data: Bytes, at: nat, wireType: int, depth: nat) returns (b: Body)
    requires at <= |data| && SkipPayload(data, at, wireType, depth).Some?
    requires SkipPayload(data, at, wireType, depth).value.at <= |data|
    ensures GoodBody(b) && WireType(b) == wireType && (b.Closing? ==> depth > 0)
    ensures var end := SkipPayload(data, at, wireType, depth).value.at;
            && end == at + |BodyText(b)| && data[at..end] == BodyText(b)
            && SkipPayload(data, at, wireType, depth).value.depth == DepthAfter(depth, b)
  {
    var end := SkipPayload(data, at, wireType, depth).value.at;
    match wireType
    case 0 =>
      NumberIs(data[at..]);
      assert data[at..][..end - at] == data[at..end];
      b := Digits(data[at..end]);
    case 1 => b := Eight(data[at..end]);
    case 2 =>
      CountedBody(data, at, end);
      var n := Scan(data[at..]).value.length;
      b := Counted(data[at..at + n], data[at + n..end]);
    case 3 => b := Opening;
    case 4 => b := Closing;
    case 5 => b := Four(data[at..end]);
  }

  /** Where the next key ends, and that it is one. */
  lemma SkippedKey(data: Bytes, pos: nat, depth: nat) returns (at: nat)
    requires pos < |data| && SkipNext(data, pos, depth).Some?
    ensures pos < at <= |data| && IsNumber(data[pos..at])
    ensures SkipNext(data, pos, depth) == SkipPayload(data, at, TypeOf(data[pos..at]), depth)
  {
    NumberIs(data[pos..]);
    at := pos + Scan(data[pos..]).value.length;
    assert data[pos..][..at - pos] == data[pos..at];
    TypeIs(data[pos..at]);
  }

  lemma SkippedPiece(data: Bytes, pos: nat, depth: nat) returns (p: Piece, tail: Bytes)
    requires pos < |data| && SkipNext(data, pos, depth).Some? && SkipNext(data, pos, depth).value.at <= |data|
    ensures Fits(data, pos, p, tail, depth)
    ensures SkipNext(data, pos, depth).value == Position(pos + |PieceText(p)|, DepthAfter(depth, p.body))
  {
    var at := SkippedKey(data, pos, depth);
    var b := SkippedBody(data, at, TypeOf(data[pos..at]), depth);
    p := Piece(data[pos..at], b);
    tail := data[at + |BodyText(b)|..];
    ThreeParts(data, pos, at, at + |BodyText(b)|);
  }

  lemma ThreeParts(data: Bytes, pos: nat, at: nat, end: nat)
    requires pos <= at <= end <= |data|
    ensures data[pos..] == data[pos..at] + data[at..end] + data[end..]
  {
  }

  /** A place to look at. */
  predicate Place(pos: nat, depth: nat) {
    true
  }

  /** Whatever is skipped within the data is a piece first. */
  ghost predicate StepsBy(data: Bytes, skip: (nat, nat) -> Option<nat>) {
    forall pos: nat, depth: nat {:trigger Place(pos, depth)} ::
      Place(pos, depth) && skip(pos, depth).Some? && skip(pos, depth).value <= |data| ==>
      pos < skip(pos, depth).value && exists p, tail :: Leads(data, skip, pos, p, tail, depth)
  }

  predicate Leads(data: Bytes, skip: (nat, nat) -> Option<nat>, pos: nat, p: Piece, tail: Bytes, depth: nat) {
    Fits(data, pos, p, tail, depth) && skip(pos, depth) == Onwards(skip, pos, p, depth)
  }

  lemma SkipStepsBy(data: Bytes, skip: (nat, nat) -> Option<nat>)
    requires IsSkip(data, skip)
    ensures StepsBy(data, skip)
  {
    forall pos: nat, depth: nat | skip(pos, depth).Some? && skip(pos, depth).value <= |data|
      ensures pos < skip(pos, depth).value && exists p, tail :: Leads(data, skip, pos, p, tail, depth)
    {
      var p, tail := SkippedPiece(data, pos, depth);
      assert Leads(data, skip, pos, p, tail, depth);
    }
  }

  /** Everything that is skipped is a balanced sequence of pieces. */
  lemma {:induction false} SkippedPieces(data: Bytes, skip: (nat, nat) -> Option<nat>, pos: nat, depth: nat)
    returns (pieces: seq<Piece>)
    requires StepsBy(data, skip) && skip(pos, depth).Some? && skip(pos, depth).value <= |data|
    ensures pos < skip(pos, depth).value
    ensures Closes(pieces, depth) && data[pos..skip(pos, depth).value] == PiecesText(pieces)
    decreases |data| - pos
  {
    var p, tail, end := NextPiece(data, skip, pos, depth);
    var at, d := pos + |PieceText(p)|, DepthAfter(depth, p.body);
    pieces := [];
    if d > 0 {
      pieces := SkippedPieces(data, skip, at, d);
    }
    JoinPiece(data, pos, p, tail, end, pieces, depth);
    pieces := [p] + pieces;
  }

  lemma JoinPiece(data: Bytes, pos: nat, p: Piece, tail: Bytes, end: nat, pieces: seq<Piece>, depth: nat)
    requires Fits(data, pos, p, tail, depth) && pos + |PieceText(p)| <= end <= |data|
    requires if DepthAfter(depth, p.body) == 0 then pieces == [] else Closes(pieces, DepthAfter(depth, p.body))
    requires data[pos + |PieceText(p)|..end] == PiecesText(pieces)
    ensures Closes([p] + pieces, depth) && data[pos..end] == PiecesText([p] + pieces)
  {
    PutPiece(p, pieces, depth);
    CutPiece(data, pos, PieceText(p), tail, end);
  }

  lemma NextPiece(data: Bytes, skip: (nat, nat) -> Option<nat>, pos: nat, depth: nat)
    returns (p: Piece, tail: Bytes, end: nat)
    requires StepsBy(data, skip) && skip(pos, depth).Some? && skip(pos, depth).value <= |data|
    ensures skip(pos, depth) == Some(end) && pos < end && pos < |data| && data[pos..] == PieceText(p) + tail
    ensures PieceText(p) != [] && GoodPiece(p) && (p.body.Closing? ==> depth > 0)
    ensures Onwards(skip, pos, p, depth) == Some(end)
  {
    end := skip(pos, depth).value;
    assert Place(pos, depth);
    p, tail :| Leads(data, skip, pos, p, tail, depth);
  }

  lemma CutPiece(data: Bytes, pos: nat, front: Bytes, tail: Bytes, end: nat)
    requires pos <= |data| && data[pos..] == front + tail && pos + |front| <= end <= |data|
    ensures data[pos..end] == front + data[pos + |front|..end]
  {
    assert data[pos..end] == data[pos..][..end - pos];
    assert data[pos + |front|..end] == data[pos..][|front|..end - pos];
  }

  lemma PutPiece(p: Piece, pieces: seq<Piece>, depth: nat)
    requires GoodPiece(p) && (p.body.Closing? ==> depth > 0)
    requires if DepthAfter(depth, p.body) == 0 then pieces == [] else Closes(pieces, DepthAfter(depth, p.body))
    ensures Closes([p] + pieces, depth) && PiecesText([p] + pieces) == PieceText(p) + PiecesText(pieces)
  {
    assert ([p] + pieces)[1..] == pieces;
  }

  lemma SkipReadsAt(data: Bytes, pos: nat, pieces: seq<Piece>, rest: Bytes, depth: nat)
    requires pos <= |data| && data[pos..] == PiecesText(pieces) + rest && Closes(pieces, depth)
    ensures Skip(data, pos, depth) == Some(pos + |PiecesText(pieces)|)
  {
    var skip: (nat, nat) -> Option<nat> := (pos, depth) => Skip(data, pos, depth);
    SkipStepsOver(data, skip);
    PiecesSkip(data, skip, pos, pieces, rest, depth);
  }

  lemma SkipReads(pieces: seq<Piece>, rest: Bytes, start: nat)
    requires start == 0 && Closes(pieces, start)
    ensures Skip(PiecesText(pieces) + rest, start, start) == Some(|PiecesText(pieces)|)
  {
    var data := PiecesText(pieces) + rest;
    assert data[start..] == data;
    SkipReadsAt(data, start, pieces, rest, start);
  }

  lemma SkippedIs(data: Bytes) returns (pieces: seq<Piece>)
    requires Skip(data, 0, 0).Some? && Skip(data, 0, 0).value <= |data|
    ensures Closes(pieces, 0) && data[..Skip(data, 0, 0).value] == PiecesText(pieces)
  {
    var skip: (nat, nat) -> Option<nat> := (pos, depth) => Skip(data, pos, depth);
    SkipStepsBy(data, skip);
    pieces := SkippedPieces(data, skip, 0, 0);
    assert data[0..Skip(data, 0, 0).value] == data[..Skip(data, 0, 0).value];
  }

  /** skipProofs, in full: what is skipped is exactly a balanced sequence of pieces. */
  lemma SkipExactly(data: Bytes, n: nat)
    requires n <= |data|
    ensures Skip(data, 0, 0) == Some(n) <==> IsField(data[..n])
  {
    if Skip(data, 0, 0) == Some(n) {
      var pieces := SkippedIs(data);
    }
    forall pieces | Closes(pieces, 0) && data[..n] == PiecesText(pieces) ensures Skip(data, 0, 0) == Some(n) {
      assert data == data[..n] + data[n..];
      SkipReads(pieces, data[n..], 0);
    }
  }

  // ----- unknown fields as trees -----

  /** A field without nested fields, or a group of fields between its start and its end. */
  datatype Unknown = Single(piece: Piece) | Group(start: Piece, fields: seq<Unknown>, end: Piece)

  predicate GoodUnknown(u: Unknown) {
    match u
    case Single(p) => GoodPiece(p) && !p.body.Opening? && !p.body.Closing?
    case Group(start, fields, end) =>
      && GoodPiece(start) && start.body.Opening? && GoodPiece(end) && end.body.Closing?
      && forall i :: 0 <= i < |fields| ==> GoodUnknown(fields[i])
  }

  function PiecesOf(u: Unknown): seq<Piece>
    decreases u, 0
  {
    match u
    case Single(p) => [p]
    case Group(start, fields, end) => [start] + PiecesOfAll(fields) + [end]
  }

  function PiecesOfAll(fields: seq<Unknown>): seq<Piece>
    decreases fields, 1
  {
    if fields == [] then [] else PiecesOf(fields[0]) + PiecesOfAll(fields[1..])
  }

  /** Inside a group a field leaves the depth as it was. */
  lemma {:induction false} UnknownInside(u: Unknown, more: seq<Piece>, depth: nat)
    requires GoodUnknown(u) && depth > 0
    ensures Closes(PiecesOf(u) + more, depth) <==> Closes(more, depth)
    decreases u, 0
  {
    match u
    case Single(p) => assert ([p] + more)[1..] == more;
    case Group(start, fields, end) =>
      var inner := [end] + more;
      assert PiecesOf(u) + more == [start] + (PiecesOfAll(fields) + inner);
      assert ([start] + (PiecesOfAll(fields) + inner))[1..] == PiecesOfAll(fields) + inner;
      AllInside(fields, inner, depth + 1);
      assert inner[1..] == more;
  }

  lemma {:induction false} AllInside(fields: seq<Unknown>, more: seq<Piece>, depth: nat)
    requires (forall i :: 0 <= i < |fields| ==> GoodUnknown(fields[i])) && depth > 0
    ensures Closes(PiecesOfAll(fields) + more, depth) <==> Closes(more, depth)
    decreases fields, 1
  {
    if fields == [] {
      assert PiecesOfAll(fields) + more == more;
    } else {
      Associate(PiecesOf(fields[0]), PiecesOfAll(fields[1..]), more);
      UnknownInside(fields[0], PiecesOfAll(fields[1..]) + more, depth);
      AllInside(fields[1..], more, depth);
    }
  }

  /** The pieces of a field are balanced. */
  lemma UnknownCloses(u: Unknown)
    requires GoodUnknown(u)
    ensures Closes(PiecesOf(u), 0)
  {
    match u
    case Single(p) =>
    case Group(start, fields, end) =>
      assert PiecesOf(u) == [start] + (PiecesOfAll(fields) + [end]);
      assert ([start] + (PiecesOfAll(fields) + [end]))[1..] == PiecesOfAll(fields) + [end];
      AllInside(fields, [end], 1);
  }

  function UnknownText(u: Unknown): Bytes {
    PiecesText(PiecesOf(u))
  }

  /** Every field, however nested and whatever follows, is skipped to its end. */
  lemma UnknownSkips(u: Unknown, rest: Bytes)
    requires GoodUnknown(u)
    ensures Skip(UnknownText(u) + rest, 0, 0) == Some(|UnknownText(u)|)
    ensures SkipField(UnknownText(u) + rest) == Some(rest)
  {
    var data := UnknownText(u) + rest;
    UnknownCloses(u);
    SkipReads(PiecesOf(u), rest, 0);
    assert data[|UnknownText(u)|..] == rest;
  }
}
