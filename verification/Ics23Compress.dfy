/**
 Compression of batch proofs: every distinct inner operation is stored once, in a table, and paths become indices
 into it.  Decompressing gives the batch back exactly when the table is small enough for 32-bit indices.
 */
module Ics23Compress {
  import opened Basics
  import opened Sequences
  import opened Varint
  import opened Ics23Types
  import opened Ics23Wire
  import opened Ics23Marshal

  /** An entry without a proof is a value of the message type; compressing it panics. */
  datatype BatchEntry = Exist(exist: ExistenceProof) | Nonexist(nonexist: NonExistenceProof) | Blank

  datatype CompressedExistence = CompressedExistence(key: Bytes, value: Bytes, leaf: Option<LeafOp>, path: seq<Int32>)

  datatype CompressedEntry =
    | CompressedExist(exist: CompressedExistence)
    | CompressedNonexist(key: Bytes, left: Option<CompressedExistence>, right: Option<CompressedExistence>)
    | CompressedBlank

  // ----- marshalled operations as keys -----

  predicate NotFirst(tag: Byte, rest: Bytes) {
    rest == [] || rest[0] != tag
  }

  lemma StartsVarintField(tag: Byte, x: Int32, rest: Bytes)
    requires NotFirst(tag, rest)
    ensures x == 0 <==> NotFirst(tag, VarintField(tag, x) + rest)
    ensures x != 0 ==> (VarintField(tag, x) + rest)[1..] == Encode(ToUint64(x)) + rest
  {
    if x == 0 {
      assert VarintField(tag, x) + rest == rest;
    } else {
      assert VarintField(tag, x) + rest == [tag] + (Encode(ToUint64(x)) + rest);
    }
  }

  lemma CutVarintField(tag: Byte, x: Int32, rest: Bytes, y: Int32, more: Bytes)
    requires VarintField(tag, x) + rest == VarintField(tag, y) + more
    requires NotFirst(tag, rest) && NotFirst(tag, more)
    ensures x == y && rest == more
  {
    StartsVarintField(tag, x, rest);
    StartsVarintField(tag, y, more);
    if x == 0 {
      assert VarintField(tag, x) + rest == rest && VarintField(tag, y) + more == more;
    } else {
      EncodeCut(ToUint64(x), rest, ToUint64(y), more);
    }
  }

  lemma StartsBytesField(tag: Byte, x: Bytes, rest: Bytes)
    requires NotFirst(tag, rest)
    ensures x == [] <==> NotFirst(tag, BytesField(tag, x) + rest)
  {
    if x == [] {
      assert BytesField(tag, x) + rest == rest;
    } else {
      assert (BytesField(tag, x) + rest)[0] == tag;
    }
  }

  lemma CutBytesField(tag: Byte, x: Bytes, rest: Bytes, y: Bytes, more: Bytes)
    requires BytesField(tag, x) + rest == BytesField(tag, y) + more
    requires NotFirst(tag, rest) && NotFirst(tag, more)
    ensures x == y && rest == more
  {
    StartsBytesField(tag, x, rest);
    StartsBytesField(tag, y, more);
    if x == [] {
      assert BytesField(tag, x) + rest == rest && BytesField(tag, y) + more == more;
    } else {
      CutLengthPrefixed(tag, x, rest, y, more);
    }
  }

  lemma CutLengthPrefixed(tag: Byte, x: Bytes, rest: Bytes, y: Bytes, more: Bytes)
    requires MessageField(tag, x) + rest == MessageField(tag, y) + more
    ensures x == y && rest == more
  {
    var whole := MessageField(tag, x) + rest;
    assert whole[1..] == Encode(|x|) + (x + rest);
    assert whole[1..] == Encode(|y|) + (y + more);
    EncodeCut(|x|, x + rest, |y|, y + more);
    assert x == (x + rest)[..|x|] && y == (y + more)[..|y|];
    assert rest == (x + rest)[|x|..] && more == (y + more)[|y|..];
  }

  lemma TailStart(prefix: Bytes, suffix: Bytes)
    ensures NotFirst(0x08, BytesField(0x12, prefix) + BytesField(0x1a, suffix))
    ensures NotFirst(0x12, BytesField(0x1a, suffix))
  {
    if prefix != [] {
      assert (BytesField(0x12, prefix) + BytesField(0x1a, suffix))[0] == BytesField(0x12, prefix)[0];
    }
  }

  /** Marshal of inner operations is injective, so its result can stand for the operation. */
  lemma MarshalInjective(a: InnerOp, b: InnerOp)
    requires EncodeInner(a) == EncodeInner(b)
    ensures a == b
  {
    Associate(VarintField(0x08, a.hash), BytesField(0x12, a.prefix), BytesField(0x1a, a.suffix));
    Associate(VarintField(0x08, b.hash), BytesField(0x12, b.prefix), BytesField(0x1a, b.suffix));
    TailStart(a.prefix, a.suffix);
    TailStart(b.prefix, b.suffix);
    CutVarintField(0x08, a.hash, BytesField(0x12, a.prefix) + BytesField(0x1a, a.suffix),
                   b.hash, BytesField(0x12, b.prefix) + BytesField(0x1a, b.suffix));
    CutBytesField(0x12, a.prefix, BytesField(0x1a, a.suffix), b.prefix, BytesField(0x1a, b.suffix));
    CutBytesField(0x1a, a.suffix, [], b.suffix, []);
  }

  // ----- the table -----

  /** The distinct steps in the order in which they first occur. */
  function Distinct(steps: seq<InnerOp>): seq<InnerOp> {
    if steps == [] then []
    else
      var table, last := Distinct(steps[..|steps| - 1]), steps[|steps| - 1];
      if last in table then table else table + [last]
  }

  /** The place of a step in a table. */
  function Place(table: seq<InnerOp>, op: InnerOp): nat {
    if table == [] || table[0] == op then 0 else 1 + Place(table[1..], op)
  }

  lemma DistinctSnoc(steps: seq<InnerOp>, op: InnerOp)
    ensures Distinct(steps + [op]) == if op in Distinct(steps) then Distinct(steps) else Distinct(steps) + [op]
  {
    assert (steps + [op])[..|steps|] == steps;
  }

  lemma {:induction false} DistinctGrows(steps: seq<InnerOp>, more: seq<InnerOp>)
    ensures Distinct(steps) <= Distinct(steps + more)
  {
    if more == [] {
      assert steps + more == steps;
    } else {
      var init := more[..|more| - 1];
      DistinctGrows(steps, init);
      DistinctSnoc(steps + init, more[|more| - 1]);
      assert steps + init + [more[|more| - 1]] == steps + more;
    }
  }

  /** The table holds each step that occurs, and no step twice. */
  lemma {:induction false} DistinctHolds(steps: seq<InnerOp>)
    ensures forall op :: op in steps <==> op in Distinct(steps)
    ensures forall i, j :: 0 <= i < j < |Distinct(steps)| ==> Distinct(steps)[i] != Distinct(steps)[j]
  {
    if steps != [] {
      var init := steps[..|steps| - 1];
      DistinctHolds(init);
      assert steps == init + [steps[|steps| - 1]];
    }
  }

  lemma {:induction false} DistinctFewer(steps: seq<InnerOp>)
    ensures |Distinct(steps)| <= |steps|
  {
    if steps != [] {
      DistinctFewer(steps[..|steps| - 1]);
    }
  }

  lemma {:induction false} PlaceHolds(table: seq<InnerOp>, op: InnerOp)
    requires op in table
    ensures Place(table, op) < |table| && table[Place(table, op)] == op
  {
    if table[0] != op {
      PlaceHolds(table[1..], op);
    }
  }

  lemma {:induction false} PlaceExtends(table: seq<InnerOp>, longer: seq<InnerOp>, op: InnerOp)
    requires op in table && table <= longer
    ensures Place(longer, op) == Place(table, op)
  {
    if table[0] != op {
      PlaceExtends(table[1..], longer[1..], op);
    }
  }

  lemma {:induction false} PlaceOfNew(table: seq<InnerOp>, op: InnerOp)
    requires op !in table
    ensures Place(table + [op], op) == |table|
  {
    if table != [] {
      assert (table + [op])[1..] == table[1..] + [op];
      PlaceOfNew(table[1..], op);
    }
  }

  // ----- what compressing and decompressing compute -----

  function CompressPath(table: seq<InnerOp>, path: seq<InnerOp>): seq<Int32> {
    if path == [] then []
    else CompressPath(table, path[..|path| - 1]) + [ToInt32(Place(table, path[|path| - 1]))]
  }

  function CompressedOf(table: seq<InnerOp>, p: ExistenceProof): CompressedExistence {
    CompressedExistence(p.key, p.value, p.leaf, CompressPath(table, p.path))
  }

  function CompressedOption(table: seq<InnerOp>, p: Option<ExistenceProof>): Option<CompressedExistence> {
    if p.None? then None else Some(CompressedOf(table, p.value))
  }

  function CompressedEntryOf(table: seq<InnerOp>, entry: BatchEntry): CompressedEntry {
    match entry
    case Exist(p) => CompressedExist(CompressedOf(table, p))
    case Nonexist(n) => CompressedNonexist(n.key, CompressedOption(table, n.left), CompressedOption(table, n.right))
    case Blank => CompressedBlank
  }

  function PathOf(p: Option<ExistenceProof>): seq<InnerOp> {
    if p.None? then [] else p.value.path
  }

  function EntrySteps(entry: BatchEntry): seq<InnerOp> {
    match entry
    case Exist(p) => p.path
    case Nonexist(n) => PathOf(n.left) + PathOf(n.right)
    case Blank => []
  }

  function BatchSteps(entries: seq<BatchEntry>): seq<InnerOp> {
    if entries == [] then [] else BatchSteps(entries[..|entries| - 1]) + EntrySteps(entries[|entries| - 1])
  }

  function CompressedEntries(table: seq<InnerOp>, entries: seq<BatchEntry>): seq<CompressedEntry> {
    if entries == [] then []
    else CompressedEntries(table, entries[..|entries| - 1]) + [CompressedEntryOf(table, entries[|entries| - 1])]
  }

  /** An index outside the table panics. */
  function DecompressPath(table: seq<InnerOp>, path: seq<Int32>): Option<seq<InnerOp>> {
    if path == [] then Some([])
    else
      var last := path[|path| - 1];
      match DecompressPath(table, path[..|path| - 1])
      case None => None
      case Some(init) => if 0 <= last < |table| then Some(init + [table[last]]) else None
  }

  function DecompressExistence(table: seq<InnerOp>, c: CompressedExistence): Option<ExistenceProof> {
    match DecompressPath(table, c.path)
    case None => None
    case Some(path) => Some(ExistenceProof(c.key, c.value, c.leaf, path))
  }

  /** Both sides of a non-existence proof; None when a side panics. */
  function DecompressSide(table: seq<InnerOp>, c: Option<CompressedExistence>): Option<Option<ExistenceProof>> {
    if c.None? then Some(None)
    else match DecompressExistence(table, c.value)
         case None => None
         case Some(p) => Some(Some(p))
  }

  function DecompressEntry(table: seq<InnerOp>, c: CompressedEntry): Option<BatchEntry> {
    match c
    case CompressedExist(e) =>
      (match DecompressExistence(table, e)
       case None => None
       case Some(p) => Some(Exist(p)))
    case CompressedNonexist(key, left, right) =>
      (match (DecompressSide(table, left), DecompressSide(table, right))
       case (Some(l), Some(r)) => Some(Nonexist(NonExistenceProof(key, l, r)))
       case _ => None)
    case CompressedBlank => None
  }

  function DecompressEntries(table: seq<InnerOp>, entries: seq<CompressedEntry>): Option<seq<BatchEntry>> {
    if entries == [] then Some([])
    else
      match (DecompressEntries(table, entries[..|entries| - 1]), DecompressEntry(table, entries[|entries| - 1]))
      case (Some(init), Some(last)) => Some(init + [last])
      case _ => None
  }

  // ----- the code -----

  /** The table and its index, shared by all entries of a batch. */
  class Compressor {
    var lookup: seq<InnerOp>
    var registry: map<Bytes, Int32>
    ghost var seen: seq<InnerOp>

    ghost predicate Valid()
      reads this
    {
      && lookup == Distinct(seen)
      && (forall op :: op in lookup ==> EncodeInner(op) in registry
                                        && registry[EncodeInner(op)] == ToInt32(Place(lookup, op)))
      && (forall key :: key in registry ==> exists op :: op in lookup && EncodeInner(op) == key)
    }

    constructor ()
      ensures Valid() && seen == [] && lookup == []
    {
      lookup, registry, seen := [], map[], [];
    }

    method CompressStep(step: InnerOp) returns (num: Int32)
      requires Valid()
      modifies this
      ensures Valid() && seen == old(seen) + [step]
      ensures step in lookup && num == ToInt32(Place(lookup, step)) && old(lookup) <= lookup
    {
      var sig := MarshalInner(step);
      DistinctSnoc(seen, step);
      if sig in registry {
        var op :| op in lookup && EncodeInner(op) == sig;
        MarshalInjective(op, step);
        seen := seen + [step];
        return registry[sig];
      }
      num := ToInt32(|lookup|);
      PlaceOfNew(lookup, step);
      forall op | op in lookup
        ensures Place(lookup + [step], op) == Place(lookup, op) && EncodeInner(op) != sig
      {
        PlaceExtends(lookup, lookup + [step], op);
      }
      lookup := lookup + [step];
      registry := registry[sig := num];
      seen := seen + [step];
      assert EncodeInner(lookup[|lookup| - 1]) == sig;
    }

    method CompressAll(all: seq<InnerOp>) returns (path: seq<Int32>)
      requires Valid()
      modifies this
      ensures Valid() && seen == old(seen) + all && old(lookup) <= lookup
      ensures path == CompressPath(lookup, all)
    {
      path := [];
      for i := 0 to |all|
        invariant Valid() && seen == old(seen) + all[..i] && old(lookup) <= lookup
        invariant path == CompressPath(lookup, all[..i]) && InTable(all[..i], lookup)
      {
        ghost var before := lookup;
        var num := CompressStep(all[i]);
        PathStable(before, lookup, all[..i]);
        OneMoreStep(lookup, all, i);
        Associate(old(seen), all[..i], [all[i]]);
        path := path + [num];
      }
      assert all[..|all|] == all;
    }

    method CompressExist(exist: Option<ExistenceProof>) returns (res: Option<CompressedExistence>)
      requires Valid()
      modifies this
      ensures Valid() && seen == old(seen) + PathOf(exist) && old(lookup) <= lookup
      ensures res == CompressedOption(lookup, exist)
    {
      if exist.None? {
        assert seen == old(seen) + PathOf(exist);
        return None;
      }
      var path := CompressAll(exist.value.path);
      res := Some(CompressedExistence(exist.value.key, exist.value.value, exist.value.leaf, path));
    }

    /** A blank entry panics. */
    method CompressEntry(entry: BatchEntry) returns (res: Option<CompressedEntry>)
      requires Valid()
      modifies this
      ensures Valid() && old(lookup) <= lookup
      ensures res.None? <==> entry.Blank?
      ensures res.Some? ==> seen == old(seen) + EntrySteps(entry) && res.value == CompressedEntryOf(lookup, entry)
    {
      if entry.Exist? {
        var exist := CompressExist(Some(entry.exist));
        return Some(CompressedExist(exist.value));
      }
      if entry.Blank? {
        return None;
      }
      var non := entry.nonexist;
      var left := CompressExist(non.left);
      ghost var before := lookup;
      var right := CompressExist(non.right);
      Associate(old(seen), PathOf(non.left), PathOf(non.right));
      SeenInTable(old(seen) + PathOf(non.left));
      SplitInTable(old(seen), PathOf(non.left), before);
      OptionStable(before, lookup, non.left);
      res := Some(CompressedNonexist(non.key, left, right));
    }
  }

  predicate InTable(path: seq<InnerOp>, table: seq<InnerOp>) {
    forall i :: 0 <= i < |path| ==> path[i] in table
  }

  lemma SeenInTable(seen: seq<InnerOp>)
    ensures InTable(seen, Distinct(seen))
  {
    DistinctHolds(seen);
  }

  lemma OneMoreStep(table: seq<InnerOp>, path: seq<InnerOp>, i: nat)
    requires i < |path|
    ensures path[..i + 1] == path[..i] + [path[i]]
    ensures CompressPath(table, path[..i + 1]) == CompressPath(table, path[..i]) + [ToInt32(Place(table, path[i]))]
    ensures InTable(path[..i], table) && path[i] in table ==> InTable(path[..i + 1], table)
  {
    assert path[..i + 1][..i] == path[..i];
  }

  lemma {:induction false} PathStable(table: seq<InnerOp>, longer: seq<InnerOp>, path: seq<InnerOp>)
    requires table <= longer && InTable(path, table)
    ensures CompressPath(longer, path) == CompressPath(table, path) && InTable(path, longer)
  {
    if path != [] {
      PathStable(table, longer, path[..|path| - 1]);
      PlaceExtends(table, longer, path[|path| - 1]);
    }
  }

  lemma OptionStable(table: seq<InnerOp>, longer: seq<InnerOp>, p: Option<ExistenceProof>)
    requires table <= longer && InTable(PathOf(p), table)
    ensures CompressedOption(longer, p) == CompressedOption(table, p)
  {
    if p.Some? {
      PathStable(table, longer, p.value.path);
    }
  }

  lemma EntryStable(table: seq<InnerOp>, longer: seq<InnerOp>, entry: BatchEntry)
    requires table <= longer && InTable(EntrySteps(entry), table)
    ensures CompressedEntryOf(longer, entry) == CompressedEntryOf(table, entry)
    ensures InTable(EntrySteps(entry), longer)
  {
    match entry
    case Exist(p) => OptionStable(table, longer, Some(p));
    case Nonexist(n) =>
      SplitInTable(PathOf(n.left), PathOf(n.right), table);
      OptionStable(table, longer, n.left);
      OptionStable(table, longer, n.right);
    case Blank =>
  }

  lemma SplitInTable(a: seq<InnerOp>, b: seq<InnerOp>, table: seq<InnerOp>)
    ensures InTable(a + b, table) <==> InTable(a, table) && InTable(b, table)
  {
    if InTable(a + b, table) {
      forall i | 0 <= i < |a| ensures a[i] in table { assert (a + b)[i] == a[i]; }
      forall i | 0 <= i < |b| ensures b[i] in table { assert (a + b)[|a| + i] == b[i]; }
    }
  }

  lemma {:induction false} EntriesStable(table: seq<InnerOp>, longer: seq<InnerOp>, entries: seq<BatchEntry>)
    requires table <= longer && InTable(BatchSteps(entries), table)
    ensures CompressedEntries(longer, entries) == CompressedEntries(table, entries)
  {
    if entries != [] {
      var init, last := entries[..|entries| - 1], entries[|entries| - 1];
      SplitInTable(BatchSteps(init), EntrySteps(last), table);
      EntriesStable(table, longer, init);
      EntryStable(table, longer, last);
    }
  }

  predicate WellFormed(entries: seq<BatchEntry>) {
    forall i :: 0 <= i < |entries| ==> !entries[i].Blank?
  }

  lemma BatchStepsSnoc(entries: seq<BatchEntry>, i: nat)
    requires i < |entries|
    ensures BatchSteps(entries[..i + 1]) == BatchSteps(entries[..i]) + EntrySteps(entries[i])
  {
    assert entries[..i + 1][..i] == entries[..i];
  }

  datatype CompressedBatch = CompressedBatch(entries: seq<CompressedEntry>, lookup: seq<InnerOp>)

  /** compress: one table for the whole batch. */
  method CompressBatch(entries: seq<BatchEntry>) returns (r: Option<CompressedBatch>)
    ensures r.Some? <==> WellFormed(entries)
    ensures r.Some? ==> r.value.lookup == Distinct(BatchSteps(entries))
    ensures r.Some? ==> r.value.entries == CompressedEntries(r.value.lookup, entries)
    ensures r.Some? ==> AllIndexed(r.value.lookup, entries, r.value.entries)
  {
    SeenInTable(BatchSteps(entries));
    EntriesIndexed(Distinct(BatchSteps(entries)), entries);
    var c := new Compressor();
    var centries: seq<CompressedEntry> := [];
    for i := 0 to |entries|
      invariant fresh(c) && c.Valid() && c.seen == BatchSteps(entries[..i])
      invariant WellFormed(entries[..i]) && centries == CompressedEntries(c.lookup, entries[..i])
    {
      ghost var before := c.lookup;
      OneMore(entries, i);
      var centry := c.CompressEntry(entries[i]);
      if centry.None? {
        return None;
      }
      BatchStepsSnoc(entries, i);
      SeenInTable(BatchSteps(entries[..i]));
      EntriesStable(before, c.lookup, entries[..i]);
      centries := centries + [centry.value];
    }
    assert entries[..|entries|] == entries;
    r := Some(CompressedBatch(centries, c.lookup));
  }

  /** decompressExist, and the panic of an index outside the table. */
  method DecompressExist(exist: CompressedExistence, lookup: seq<InnerOp>) returns (r: Option<ExistenceProof>)
    ensures r == DecompressExistence(lookup, exist)
    ensures forall p :: r == Some(p) <==> IsRestored(lookup, exist, p)
  {
    forall p ensures DecompressExistence(lookup, exist) == Some(p) <==> IsRestored(lookup, exist, p) {
      RestoredExactly(lookup, exist, p);
    }
    var path: seq<InnerOp> := [];
    for i := 0 to |exist.path|
      invariant DecompressPath(lookup, exist.path[..i]) == Some(path)
    {
      assert exist.path[..i + 1][..i] == exist.path[..i];
      if !(0 <= exist.path[i] < |lookup|) {
        DecompressPathStops(lookup, exist.path, i + 1);
        return None;
      }
      path := path + [lookup[exist.path[i]]];
    }
    assert exist.path[..|exist.path|] == exist.path;
    r := Some(ExistenceProof(exist.key, exist.value, exist.leaf, path));
  }

  lemma {:induction false} DecompressPathStops(table: seq<InnerOp>, path: seq<Int32>, i: nat)
    requires i <= |path| && DecompressPath(table, path[..i]).None?
    ensures DecompressPath(table, path).None?
    decreases |path| - i
  {
    if i == |path| {
      assert path[..i] == path;
    } else {
      assert path[..i + 1][..i] == path[..i];
      DecompressPathStops(table, path, i + 1);
    }
  }

  /** decompress: entry by entry. */
  method DecompressBatch(c: CompressedBatch) returns (r: Option<seq<BatchEntry>>)
    ensures r == DecompressEntries(c.lookup, c.entries)
    ensures r.Some? ==> AllRestored(c.lookup, c.entries, r.value)
  {
    var entries: seq<BatchEntry> := [];
    for i := 0 to |c.entries|
      invariant DecompressEntries(c.lookup, c.entries[..i]) == Some(entries)
    {
      assert c.entries[..i + 1][..i] == c.entries[..i];
      var entry := DecompressEntry(c.lookup, c.entries[i]);
      if entry.None? {
        DecompressStops(c.lookup, c.entries, i + 1);
        return None;
      }
      entries := entries + [entry.value];
    }
    assert c.entries[..|c.entries|] == c.entries;
    DecompressExactly(c.lookup, c.entries, entries);
    r := Some(entries);
  }

  lemma {:induction false} DecompressStops(table: seq<InnerOp>, entries: seq<CompressedEntry>, i: nat)
    requires i <= |entries| && DecompressEntries(table, entries[..i]).None?
    ensures DecompressEntries(table, entries).None?
    decreases |entries| - i
  {
    if i == |entries| {
      assert entries[..i] == entries;
    } else {
      assert entries[..i + 1][..i] == entries[..i];
      DecompressStops(table, entries, i + 1);
    }
  }

  // ----- the round trip -----

  /** Int32 indices reach this many operations. */
  const MAX_TABLE := 0x8000_0000

  lemma DecompressLast(table: seq<InnerOp>, path: seq<Int32>, last: Int32)
    requires DecompressPath(table, path).Some? && 0 <= last < |table|
    ensures DecompressPath(table, path + [last]) == Some(DecompressPath(table, path).value + [table[last]])
  {
    assert (path + [last])[..|path|] == path;
  }

  lemma PlaceIndex(table: seq<InnerOp>, op: InnerOp) returns (index: Int32)
    requires |table| <= MAX_TABLE && op in table
    ensures 0 <= index < |table| && table[index] == op && index == ToInt32(Place(table, op))
  {
    PlaceHolds(table, op);
    index := ToInt32(Place(table, op));
  }

  lemma CompressLast(table: seq<InnerOp>, init: seq<InnerOp>, last: InnerOp)
    ensures CompressPath(table, init + [last]) == CompressPath(table, init) + [ToInt32(Place(table, last))]
  {
    assert (init + [last])[..|init|] == init;
  }

  lemma {:induction false} PathRoundTrips(table: seq<InnerOp>, path: seq<InnerOp>)
    requires |table| <= MAX_TABLE && InTable(path, table)
    ensures DecompressPath(table, CompressPath(table, path)) == Some(path)
  {
    if path != [] {
      var init, last := path[..|path| - 1], path[|path| - 1];
      assert path == init + [last];
      PathRoundTrips(table, init);
      CompressLast(table, init, last);
      var index := PlaceIndex(table, last);
      DecompressLast(table, CompressPath(table, init), index);
    }
  }

  lemma SideRoundTrips(table: seq<InnerOp>, p: Option<ExistenceProof>)
    requires |table| <= MAX_TABLE && InTable(PathOf(p), table)
    ensures DecompressSide(table, CompressedOption(table, p)) == Some(p)
  {
    PathRoundTrips(table, PathOf(p));
  }

  lemma EntryRoundTrips(table: seq<InnerOp>, entry: BatchEntry)
    requires |table| <= MAX_TABLE && !entry.Blank? && InTable(EntrySteps(entry), table)
    ensures DecompressEntry(table, CompressedEntryOf(table, entry)) == Some(entry)
  {
    match entry
    case Exist(p) => PathRoundTrips(table, p.path);
    case Nonexist(n) =>
      SplitInTable(PathOf(n.left), PathOf(n.right), table);
      SideRoundTrips(table, n.left);
      SideRoundTrips(table, n.right);
  }

  lemma {:induction false} EntriesRoundTrip(table: seq<InnerOp>, entries: seq<BatchEntry>)
    requires |table| <= MAX_TABLE && WellFormed(entries) && InTable(BatchSteps(entries), table)
    ensures DecompressEntries(table, CompressedEntries(table, entries)) == Some(entries)
  {
    if entries != [] {
      var init, last := entries[..|entries| - 1], entries[|entries| - 1];
      SplitInTable(BatchSteps(init), EntrySteps(last), table);
      EntriesRoundTrip(table, init);
      EntryRoundTrips(table, last);
      DecompressSnoc(table, CompressedEntries(table, init), CompressedEntryOf(table, last));
      OneMore(entries, |entries| - 1);
    }
  }

  lemma DecompressSnoc(table: seq<InnerOp>, init: seq<CompressedEntry>, last: CompressedEntry)
    ensures DecompressEntries(table, init + [last]) ==
            match (DecompressEntries(table, init), DecompressEntry(table, last))
            case (Some(a), Some(b)) => Some(a + [b])
            case _ => None
  {
    assert (init + [last])[..|init|] == init;
  }

  /** A step beyond the reach of an index makes the entry it is in panic. */
  lemma EntryOverflows(table: seq<InnerOp>, entry: BatchEntry, op: InnerOp)
    requires op in EntrySteps(entry) && MAX_TABLE == Place(table, op)
    ensures DecompressEntry(table, CompressedEntryOf(table, entry)).None?
  {
    match entry
    case Exist(p) => PathOverflows(table, p.path, op);
    case Nonexist(n) =>
      if op in PathOf(n.left) {
        PathOverflows(table, n.left.value.path, op);
      } else {
        PathOverflows(table, n.right.value.path, op);
      }
  }

  lemma {:induction false} PathOverflows(table: seq<InnerOp>, path: seq<InnerOp>, op: InnerOp)
    requires op in path && MAX_TABLE == Place(table, op)
    ensures DecompressPath(table, CompressPath(table, path)).None?
  {
    var init, last := path[..|path| - 1], path[|path| - 1];
    var all := CompressPath(table, path);
    assert all[..|all| - 1] == CompressPath(table, init);
    if last != op {
      PathOverflows(table, init, op);
    }
  }

  lemma {:induction false} EntriesOverflow(table: seq<InnerOp>, entries: seq<BatchEntry>, op: InnerOp)
    requires op in BatchSteps(entries) && MAX_TABLE == Place(table, op)
    ensures DecompressEntries(table, CompressedEntries(table, entries)).None?
  {
    var init, last := entries[..|entries| - 1], entries[|entries| - 1];
    var all := CompressedEntries(table, entries);
    assert all[..|all| - 1] == CompressedEntries(table, init);
    if op in EntrySteps(last) {
      EntryOverflows(table, last, op);
    } else {
      EntriesOverflow(table, init, op);
    }
  }

  lemma {:induction false} PlaceOfNth(table: seq<InnerOp>, i: nat)
    requires i < |table| && forall a, b :: 0 <= a < b < |table| ==> table[a] != table[b]
    ensures Place(table, table[i]) == i
  {
    if i > 0 {
      assert table[0] != table[i];
      PlaceOfNth(table[1..], i - 1);
    }
  }

  /** Decompressing a compressed batch gives it back if and only if it has at most 2^31 distinct steps. */
  lemma RoundTripExactly(entries: seq<BatchEntry>)
    requires WellFormed(entries)
    ensures var table := Distinct(BatchSteps(entries));
            DecompressEntries(table, CompressedEntries(table, entries)) == Some(entries) <==> |table| <= MAX_TABLE
  {
    var table := Distinct(BatchSteps(entries));
    DistinctHolds(BatchSteps(entries));
    if |table| <= MAX_TABLE {
      EntriesRoundTrip(table, entries);
    } else {
      PlaceOfNth(table, MAX_TABLE);
      EntriesOverflow(table, entries, table[MAX_TABLE]);
    }
  }

  // ----- decompression without recursion -----

  /** The proof has the fields of the compressed one, and its steps are those at the indices, all inside the table. */
  predicate IsRestored(table: seq<InnerOp>, c: CompressedExistence, p: ExistenceProof) {
    && p.key == c.key && p.value == c.value && p.leaf == c.leaf && |p.path| == |c.path|
    && forall i :: 0 <= i < |c.path| ==> 0 <= c.path[i] < |table| && p.path[i] == table[c.path[i]]
  }

  predicate IsRestoredSide(table: seq<InnerOp>, c: Option<CompressedExistence>, p: Option<ExistenceProof>) {
    c.Some? == p.Some? && (c.Some? ==> IsRestored(table, c.value, p.value))
  }

  predicate IsRestoredEntry(table: seq<InnerOp>, c: CompressedEntry, e: BatchEntry) {
    match c
    case CompressedExist(x) => e.Exist? && IsRestored(table, x, e.exist)
    case CompressedNonexist(key, left, right) =>
      && e.Nonexist? && e.nonexist.key == key
      && IsRestoredSide(table, left, e.nonexist.left) && IsRestoredSide(table, right, e.nonexist.right)
    case CompressedBlank => false
  }

  lemma {:induction false} DecompressPathExactly(table: seq<InnerOp>, path: seq<Int32>, r: seq<InnerOp>)
    ensures DecompressPath(table, path) == Some(r) <==>
            |r| == |path| && forall i :: 0 <= i < |path| ==> 0 <= path[i] < |table| && r[i] == table[path[i]]
  {
    if path != [] {
      var n := |path| - 1;
      if |r| == |path| {
        DecompressPathExactly(table, path[..n], r[..n]);
        assert r == r[..n] + [r[n]];
      }
      if DecompressPath(table, path[..n]).Some? {
        DecompressPathExactly(table, path[..n], DecompressPath(table, path[..n]).value);
      }
    }
  }

  lemma RestoredExactly(table: seq<InnerOp>, c: CompressedExistence, p: ExistenceProof)
    ensures DecompressExistence(table, c) == Some(p) <==> IsRestored(table, c, p)
  {
    DecompressPathExactly(table, c.path, p.path);
  }

  lemma RestoredSideExactly(table: seq<InnerOp>, c: Option<CompressedExistence>, p: Option<ExistenceProof>)
    ensures DecompressSide(table, c) == Some(p) <==> IsRestoredSide(table, c, p)
  {
    if c.Some? && p.Some? {
      RestoredExactly(table, c.value, p.value);
    }
  }

  lemma RestoredEntryExactly(table: seq<InnerOp>, c: CompressedEntry, e: BatchEntry)
    ensures DecompressEntry(table, c) == Some(e) <==> IsRestoredEntry(table, c, e)
  {
    match c
    case CompressedExist(x) =>
      if e.Exist? {
        RestoredExactly(table, x, e.exist);
      }
    case CompressedNonexist(key, left, right) =>
      if e.Nonexist? {
        RestoredSideExactly(table, left, e.nonexist.left);
        RestoredSideExactly(table, right, e.nonexist.right);
      }
    case CompressedBlank =>
  }

  /** decompress in full: an entry for each, restored; otherwise it panics. */
  predicate AllRestored(table: seq<InnerOp>, entries: seq<CompressedEntry>, r: seq<BatchEntry>) {
    |r| == |entries| && forall i :: 0 <= i < |entries| ==> IsRestoredEntry(table, entries[i], r[i])
  }

  lemma {:induction false} DecompressExactly(table: seq<InnerOp>, entries: seq<CompressedEntry>, r: seq<BatchEntry>)
    ensures DecompressEntries(table, entries) == Some(r) <==> AllRestored(table, entries, r)
  {
    if entries != [] {
      var n := |entries| - 1;
      if |r| == |entries| {
        DecompressExactly(table, entries[..n], r[..n]);
        RestoredEntryExactly(table, entries[n], r[n]);
        assert r == r[..n] + [r[n]];
      }
      if DecompressEntries(table, entries[..n]).Some? {
        DecompressExactly(table, entries[..n], DecompressEntries(table, entries[..n]).value);
      }
    }
  }

  // ----- compression without recursion -----

  /** The indices are the places of the steps in the table, as 32-bit numbers. */
  predicate IsIndexed(table: seq<InnerOp>, p: ExistenceProof, c: CompressedExistence) {
    && c.key == p.key && c.value == p.value && c.leaf == p.leaf && |c.path| == |p.path|
    && forall i :: 0 <= i < |p.path| ==>
                   exists n :: 0 <= n < |table| && table[n] == p.path[i] && c.path[i] == ToInt32(n)
  }

  predicate IsIndexedSide(table: seq<InnerOp>, p: Option<ExistenceProof>, c: Option<CompressedExistence>) {
    c.Some? == p.Some? && (c.Some? ==> IsIndexed(table, p.value, c.value))
  }

  predicate IsIndexedEntry(table: seq<InnerOp>, e: BatchEntry, c: CompressedEntry) {
    match e
    case Exist(p) => c.CompressedExist? && IsIndexed(table, p, c.exist)
    case Nonexist(n) =>
      && c.CompressedNonexist? && c.key == n.key
      && IsIndexedSide(table, n.left, c.left) && IsIndexedSide(table, n.right, c.right)
    case Blank => c.CompressedBlank?
  }

  lemma {:induction false} PathIndexed(table: seq<InnerOp>, path: seq<InnerOp>, i: nat)
    requires InTable(path, table) && i < |path|
    ensures |CompressPath(table, path)| == |path|
    ensures exists n :: 0 <= n < |table| && table[n] == path[i] && CompressPath(table, path)[i] == ToInt32(n)
  {
    var last := |path| - 1;
    PathLength(table, path[..last]);
    if i < last {
      PathIndexed(table, path[..last], i);
      assert CompressPath(table, path)[i] == CompressPath(table, path[..last])[i];
    } else {
      PlaceHolds(table, path[last]);
    }
  }

  lemma {:induction false} PathLength(table: seq<InnerOp>, path: seq<InnerOp>)
    ensures |CompressPath(table, path)| == |path|
  {
    if path != [] {
      PathLength(table, path[..|path| - 1]);
    }
  }

  lemma ProofIndexed(table: seq<InnerOp>, p: ExistenceProof)
    requires InTable(p.path, table)
    ensures IsIndexed(table, p, CompressedOf(table, p))
  {
    PathLength(table, p.path);
    forall i | 0 <= i < |p.path|
      ensures exists n :: 0 <= n < |table| && table[n] == p.path[i] && CompressPath(table, p.path)[i] == ToInt32(n)
    {
      PathIndexed(table, p.path, i);
    }
  }

  lemma EntryIndexed(table: seq<InnerOp>, e: BatchEntry)
    requires InTable(EntrySteps(e), table)
    ensures IsIndexedEntry(table, e, CompressedEntryOf(table, e))
  {
    match e
    case Exist(p) => ProofIndexed(table, p);
    case Nonexist(n) =>
      SplitInTable(PathOf(n.left), PathOf(n.right), table);
      if n.left.Some? {
        ProofIndexed(table, n.left.value);
      }
      if n.right.Some? {
        ProofIndexed(table, n.right.value);
      }
    case Blank =>
  }

  predicate AllIndexed(table: seq<InnerOp>, entries: seq<BatchEntry>, compressed: seq<CompressedEntry>) {
    |compressed| == |entries| && forall i :: 0 <= i < |entries| ==> IsIndexedEntry(table, entries[i], compressed[i])
  }

  lemma IndexedMore(table: seq<InnerOp>, entries: seq<BatchEntry>, compressed: seq<CompressedEntry>,
                    e: BatchEntry, c: CompressedEntry)
    requires AllIndexed(table, entries, compressed) && IsIndexedEntry(table, e, c)
    ensures AllIndexed(table, entries + [e], compressed + [c])
  {
    var all, some := entries + [e], compressed + [c];
    forall i | 0 <= i < |all| ensures IsIndexedEntry(table, all[i], some[i]) {
      if i < |entries| {
        assert all[i] == entries[i] && some[i] == compressed[i];
      }
    }
  }

  /** Every entry is compressed to the places of its steps in the table. */
  lemma {:induction false} EntriesIndexed(table: seq<InnerOp>, entries: seq<BatchEntry>)
    requires InTable(BatchSteps(entries), table)
    ensures AllIndexed(table, entries, CompressedEntries(table, entries))
  {
    if entries != [] {
      var init, last := entries[..|entries| - 1], entries[|entries| - 1];
      SplitInTable(BatchSteps(init), EntrySteps(last), table);
      EntriesIndexed(table, init);
      EntryIndexed(table, last);
      IndexedMore(table, init, CompressedEntries(table, init), last, CompressedEntryOf(table, last));
      OneMore(entries, |entries| - 1);
    }
  }

  lemma PartsAround(steps: seq<InnerOp>, i: nat)
    requires i < |steps|
    ensures steps == steps[..i] + [steps[i]] + steps[i + 1..]
  {
  }

  /** A step that has not occurred before comes behind all that have, and the order never changes. */
  lemma FirstOccurrence(steps: seq<InnerOp>, i: nat)
    requires i < |steps|
    ensures Distinct(steps[..i]) <= Distinct(steps)
    ensures steps[i] !in steps[..i] ==>
            var n := |Distinct(steps[..i])|; n < |Distinct(steps)| && Distinct(steps)[n] == steps[i]
  {
    var before, after := steps[..i], steps[i + 1..];
    DistinctHolds(before);
    DistinctSnoc(before, steps[i]);
    PartsAround(steps, i);
    DistinctGrows(before + [steps[i]], after);
  }
}
