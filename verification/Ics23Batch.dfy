/**
 The entry points of the package on commitment proofs of any kind: verification, compression and combination, and
 that neither of the last two changes a verdict.
 */
module Ics23Batch {
  import opened Basics
  import opened ByteOrder
  import opened Ics23Types
  import opened Ics23Ops
  import opened Ics23Proof
  import opened Ics23Compress
  import opened IavlTree
  import opened IavlMembership
  import opened IavlNonMembership

  datatype CommitmentProof =
    | OfExist(exist: ExistenceProof)
    | OfNonexist(nonexist: NonExistenceProof)
    | OfBatch(entries: seq<BatchEntry>)
    | OfCompressed(batch: CompressedBatch)
    | NoProof

  /** Compress; None stands for the panic on a blank entry. */
  function Compress(p: CommitmentProof): Option<CommitmentProof> {
    if !p.OfBatch? then Some(p)
    else if !WellFormed(p.entries) then None
    else
      var table := Distinct(BatchSteps(p.entries));
      Some(OfCompressed(CompressedBatch(CompressedEntries(table, p.entries), table)))
  }

  /** Decompress; None stands for the panic on an index outside the table or a blank entry. */
  function Decompress(p: CommitmentProof): Option<CommitmentProof> {
    if !p.OfCompressed? then Some(p)
    else match DecompressEntries(p.batch.lookup, p.batch.entries)
         case None => None
         case Some(entries) => Some(OfBatch(entries))
  }

  method CompressProof(p: CommitmentProof) returns (r: Option<CommitmentProof>)
    ensures r == Compress(p)
  {
    if !p.OfBatch? {
      return Some(p);
    }
    var batch := CompressBatch(p.entries);
    if batch.None? {
      return None;
    }
    return Some(OfCompressed(batch.value));
  }

  method DecompressProof(p: CommitmentProof) returns (r: Option<CommitmentProof>)
    ensures r == Decompress(p)
  {
    if !p.OfCompressed? {
      return Some(p);
    }
    var entries := DecompressBatch(p.batch);
    if entries.None? {
      return None;
    }
    return Some(OfBatch(entries.value));
  }

  /** How many operations the table of a compressed batch would hold. */
  function TableSize(p: CommitmentProof): nat {
    if p.OfBatch? then |Distinct(BatchSteps(p.entries))| else 0
  }

  /** Decompressing undoes compressing exactly on batches without blank entries and with at most 2^31 steps. */
  lemma CompressRoundTrip(p: CommitmentProof)
    requires !p.OfCompressed?
    ensures Compress(p).Some? && Decompress(Compress(p).value) == Some(p) <==>
            (p.OfBatch? ==> WellFormed(p.entries)) && TableSize(p) <= MAX_TABLE
  {
    if p.OfBatch? && WellFormed(p.entries) {
      RoundTripExactly(p.entries);
    }
  }

  /** Neither function changes its own result. */
  lemma Idempotent(p: CommitmentProof)
    ensures Compress(p).Some? ==> Compress(Compress(p).value) == Compress(p)
    ensures Decompress(p).Some? ==> Decompress(Decompress(p).value) == Decompress(p)
  {
  }

  // ----- finding the entry for a key -----

  predicate ExistFor(entry: BatchEntry, key: Bytes) {
    entry.Exist? && entry.exist.key == key
  }

  predicate Brackets(p: NonExistenceProof, key: Bytes) {
    && (p.left.Some? ==> Less(p.left.value.key, key))
    && (p.right.Some? ==> Less(key, p.right.value.key))
  }

  predicate NonexistFor(entry: BatchEntry, key: Bytes) {
    entry.Nonexist? && Brackets(entry.nonexist, key)
  }

  /** The entries of a proof that is not compressed. */
  function Entries(p: CommitmentProof): seq<BatchEntry> {
    match p
    case OfExist(e) => [Exist(e)]
    case OfNonexist(n) => [Nonexist(n)]
    case OfBatch(entries) => entries
    case _ => []
  }

  function FirstExist(entries: seq<BatchEntry>, key: Bytes): Option<ExistenceProof> {
    if entries == [] then None
    else if ExistFor(entries[0], key) then Some(entries[0].exist)
    else FirstExist(entries[1..], key)
  }

  function FirstNonexist(entries: seq<BatchEntry>, key: Bytes): Option<NonExistenceProof> {
    if entries == [] then None
    else if NonexistFor(entries[0], key) then Some(entries[0].nonexist)
    else FirstNonexist(entries[1..], key)
  }

  /** The first entry with the key, without recursion. */
  lemma {:induction false} FirstExistExactly(entries: seq<BatchEntry>, key: Bytes, p: ExistenceProof)
    ensures FirstExist(entries, key) == Some(p) <==>
            exists i :: 0 <= i < |entries| && entries[i] == Exist(p) && p.key == key && NoneBefore(entries, i, key)
  {
    if entries != [] {
      FirstExistExactly(entries[1..], key, p);
      forall i | 1 <= i < |entries|
        ensures NoneBefore(entries, i, key) <==> !ExistFor(entries[0], key) && NoneBefore(entries[1..], i - 1, key)
      {
        NoneBeforeRest(entries, i, key);
      }
      if FirstExist(entries, key) == Some(p) && !ExistFor(entries[0], key) {
        var i :| 0 <= i < |entries[1..]| && entries[1..][i] == Exist(p) && NoneBefore(entries[1..], i, key);
        assert entries[i + 1] == Exist(p) && NoneBefore(entries, i + 1, key);
      }
    }
  }

  predicate NoneBefore(entries: seq<BatchEntry>, i: nat, key: Bytes)
    requires i <= |entries|
  {
    forall j :: 0 <= j < i ==> !ExistFor(entries[j], key)
  }

  lemma NoneBeforeRest(entries: seq<BatchEntry>, i: nat, key: Bytes)
    requires 1 <= i <= |entries|
    ensures NoneBefore(entries, i, key) <==> !ExistFor(entries[0], key) && NoneBefore(entries[1..], i - 1, key)
  {
    if NoneBefore(entries, i, key) {
      forall j | 0 <= j < i - 1 ensures !ExistFor(entries[1..][j], key) { assert entries[1..][j] == entries[j + 1]; }
    }
    if !ExistFor(entries[0], key) && NoneBefore(entries[1..], i - 1, key) {
      forall j | 0 <= j < i ensures !ExistFor(entries[j], key) {
        assert j > 0 ==> entries[j] == entries[1..][j - 1];
      }
    }
  }

  predicate NoBracketBefore(entries: seq<BatchEntry>, i: nat, key: Bytes)
    requires i <= |entries|
  {
    forall j :: 0 <= j < i ==> !NonexistFor(entries[j], key)
  }

  lemma NoBracketRest(entries: seq<BatchEntry>, i: nat, key: Bytes)
    requires 1 <= i <= |entries|
    ensures NoBracketBefore(entries, i, key) <==>
            !NonexistFor(entries[0], key) && NoBracketBefore(entries[1..], i - 1, key)
  {
    if NoBracketBefore(entries, i, key) {
      forall j | 0 <= j < i - 1 ensures !NonexistFor(entries[1..][j], key) {
        assert entries[1..][j] == entries[j + 1];
      }
    }
    if !NonexistFor(entries[0], key) && NoBracketBefore(entries[1..], i - 1, key) {
      forall j | 0 <= j < i ensures !NonexistFor(entries[j], key) {
        assert j > 0 ==> entries[j] == entries[1..][j - 1];
      }
    }
  }

  /** The first entry whose neighbours are on both sides of the key, where it has them. */
  lemma {:induction false} FirstNonexistExactly(entries: seq<BatchEntry>, key: Bytes, p: NonExistenceProof)
    ensures FirstNonexist(entries, key) == Some(p) <==>
            exists i :: 0 <= i < |entries| && entries[i] == Nonexist(p) && Brackets(p, key) &&
                        NoBracketBefore(entries, i, key)
  {
    if entries != [] {
      FirstNonexistExactly(entries[1..], key, p);
      forall i | 1 <= i < |entries|
        ensures NoBracketBefore(entries, i, key) <==>
                !NonexistFor(entries[0], key) && NoBracketBefore(entries[1..], i - 1, key)
      {
        NoBracketRest(entries, i, key);
      }
      if FirstNonexist(entries, key) == Some(p) && !NonexistFor(entries[0], key) {
        var i :| 0 <= i < |entries[1..]| && entries[1..][i] == Nonexist(p) && NoBracketBefore(entries[1..], i, key);
        assert entries[i + 1] == Nonexist(p) && NoBracketBefore(entries, i + 1, key);
      }
    }
  }

  /** getExistProofForKey. */
  method GetExistProofForKey(p: CommitmentProof, key: Bytes) returns (r: Option<ExistenceProof>)
    ensures r == FirstExist(Entries(p), key)
  {
    if p.OfExist? {
      return if p.exist.key == key then Some(p.exist) else None;
    } else if p.OfBatch? {
      for i := 0 to |p.entries|
        invariant FirstExist(p.entries[i..], key) == FirstExist(p.entries, key)
      {
        if p.entries[i].Exist? && p.entries[i].exist.key == key {
          return Some(p.entries[i].exist);
        }
      }
    }
    return None;
  }

  /** getNonExistProofForKey. */
  method GetNonExistProofForKey(p: CommitmentProof, key: Bytes) returns (r: Option<NonExistenceProof>)
    ensures r == FirstNonexist(Entries(p), key)
  {
    if p.OfNonexist? {
      return if Brackets(p.nonexist, key) then Some(p.nonexist) else None;
    } else if p.OfBatch? {
      for i := 0 to |p.entries|
        invariant FirstNonexist(p.entries[i..], key) == FirstNonexist(p.entries, key)
      {
        if p.entries[i].Nonexist? && Brackets(p.entries[i].nonexist, key) {
          return Some(p.entries[i].nonexist);
        }
      }
    }
    return None;
  }

  // ----- verification -----

  function ExistVerdict(h: Hasher, spec: ProofSpec, root: Bytes, p: Option<ExistenceProof>, key: Bytes, value: Bytes)
    : Verification
    requires spec.innerSpec.childSize > 0
  {
    if p.Some? && VerifyExistence(h, spec, p.value, root, key, value) then Accepted else Rejected
  }

  function NonexistVerdict(h: Hasher, spec: ProofSpec, root: Bytes, p: Option<NonExistenceProof>, key: Bytes)
    : Verification
    requires Binary(spec.innerSpec)
  {
    if p.Some? then VerifyNonExistence(h, spec, p.value, root, key) else Rejected
  }

  function VerifyMembership(h: Hasher, spec: ProofSpec, root: Bytes, p: CommitmentProof, key: Bytes, value: Bytes)
    : Verification
    requires spec.innerSpec.childSize > 0
  {
    match Decompress(p)
    case None => Panicked
    case Some(q) => ExistVerdict(h, spec, root, FirstExist(Entries(q), key), key, value)
  }

  function VerifyNonMembership(h: Hasher, spec: ProofSpec, root: Bytes, p: CommitmentProof, key: Bytes): Verification
    requires Binary(spec.innerSpec)
  {
    match Decompress(p)
    case None => Panicked
    case Some(q) => NonexistVerdict(h, spec, root, FirstNonexist(Entries(q), key), key)
  }

  lemma VerifyBatch(h: Hasher, spec: ProofSpec, root: Bytes, entries: seq<BatchEntry>, key: Bytes, value: Bytes)
    requires Binary(spec.innerSpec)
    ensures VerifyMembership(h, spec, root, OfBatch(entries), key, value) ==
            ExistVerdict(h, spec, root, FirstExist(entries, key), key, value)
    ensures VerifyNonMembership(h, spec, root, OfBatch(entries), key) ==
            NonexistVerdict(h, spec, root, FirstNonexist(entries, key), key)
  {
  }

  /** BatchVerifyMembership goes through the items in any order and stops at the first that fails. */
  method BatchVerifyMembership(h: Hasher, spec: ProofSpec, root: Bytes, p: CommitmentProof, items: map<Bytes, Bytes>)
    returns (r: Verification)
    requires spec.innerSpec.childSize > 0
    ensures r == Panicked <==> Decompress(p).None?
    ensures r == Accepted <==>
            Decompress(p).Some?
            && forall key :: key in items ==> VerifyMembership(h, spec, root, p, key, items[key]) == Accepted
  {
    var q := DecompressProof(p);
    if q.None? {
      return Panicked;
    }
    var todo := items.Keys;
    while todo != {}
      invariant todo <= items.Keys
      invariant forall key :: key in items && key !in todo ==>
                              VerifyMembership(h, spec, root, p, key, items[key]) == Accepted
      decreases |todo|
    {
      var key :| key in todo;
      if VerifyMembership(h, spec, root, q.value, key, items[key]) != Accepted {
        return Rejected;
      }
      todo := todo - {key};
    }
    return Accepted;
  }

  /** BatchVerifyNonMembership goes through the keys in order; the first that is not accepted decides. */
  method BatchVerifyNonMembership(h: Hasher, spec: ProofSpec, root: Bytes, p: CommitmentProof, keys: seq<Bytes>)
    returns (r: Verification)
    requires Binary(spec.innerSpec)
    ensures r == Accepted <==>
            Decompress(p).Some?
            && forall i :: 0 <= i < |keys| ==> VerifyNonMembership(h, spec, root, p, keys[i]) == Accepted
    ensures Decompress(p).None? ==> r == Panicked
    ensures r != Accepted && Decompress(p).Some? ==>
            exists i :: 0 <= i < |keys| && VerifyNonMembership(h, spec, root, p, keys[i]) == r
                        && forall j :: 0 <= j < i ==> VerifyNonMembership(h, spec, root, p, keys[j]) == Accepted
  {
    var q := DecompressProof(p);
    if q.None? {
      return Panicked;
    }
    for i := 0 to |keys|
      invariant forall j :: 0 <= j < i ==> VerifyNonMembership(h, spec, root, p, keys[j]) == Accepted
    {
      r := VerifyNonMembership(h, spec, root, q.value, keys[i]);
      if r != Accepted {
        assert VerifyNonMembership(h, spec, root, p, keys[i]) == r;
        return r;
      }
    }
    return Accepted;
  }

  /** Compression changes no verdict. */
  lemma CompressionKeepsVerdicts(h: Hasher, spec: ProofSpec, root: Bytes, p: CommitmentProof, key: Bytes, value: Bytes)
    requires Binary(spec.innerSpec)
    requires (p.OfBatch? ==> WellFormed(p.entries)) && TableSize(p) <= MAX_TABLE
    ensures Compress(p).Some?
    ensures VerifyMembership(h, spec, root, Compress(p).value, key, value) ==
            VerifyMembership(h, spec, root, p, key, value)
    ensures VerifyNonMembership(h, spec, root, Compress(p).value, key) == VerifyNonMembership(h, spec, root, p, key)
  {
    if p.OfBatch? {
      CompressRoundTrip(p);
    }
  }

  // ----- combination -----

  /** All entries of the proofs, in order; None when a proof cannot be decompressed. */
  function Flatten(proofs: seq<CommitmentProof>): Option<seq<BatchEntry>> {
    if proofs == [] then Some([])
    else
      match (Flatten(proofs[..|proofs| - 1]), Decompress(proofs[|proofs| - 1]))
      case (Some(init), Some(last)) => Some(init + Entries(last))
      case _ => None
  }

  predicate AllProofs(proofs: seq<CommitmentProof>) {
    forall i :: 0 <= i < |proofs| ==> !proofs[i].NoProof?
  }

  /** What CombineProofs gives; None when it fails. */
  function CombinedProof(proofs: seq<CommitmentProof>): Option<CommitmentProof> {
    if AllProofs(proofs) && Flatten(proofs).Some? then Compress(OfBatch(Flatten(proofs).value)) else None
  }

  datatype Combination = Combined(proof: CommitmentProof) | Refused | Crashed

  lemma {:induction false} FlattenStops(proofs: seq<CommitmentProof>, i: nat)
    requires i <= |proofs| && Flatten(proofs[..i]).None?
    ensures Flatten(proofs).None?
    decreases |proofs| - i
  {
    if i == |proofs| {
      assert proofs[..i] == proofs;
    } else {
      assert proofs[..i + 1][..i] == proofs[..i];
      FlattenStops(proofs, i + 1);
    }
  }

  /** These are the entries of the proof; a compressed batch is restored. */
  predicate HasEntries(p: CommitmentProof, part: seq<BatchEntry>) {
    match p
    case OfExist(e) => part == [Exist(e)]
    case OfNonexist(n) => part == [Nonexist(n)]
    case OfBatch(entries) => part == entries
    case OfCompressed(c) =>
      |part| == |c.entries| && forall i :: 0 <= i < |part| ==> IsRestoredEntry(c.lookup, c.entries[i], part[i])
    case NoProof => part == []
  }

  lemma HasEntriesExactly(p: CommitmentProof, part: seq<BatchEntry>)
    ensures HasEntries(p, part) <==> Decompress(p).Some? && Entries(Decompress(p).value) == part
  {
    if p.OfCompressed? {
      DecompressExactly(p.batch.lookup, p.batch.entries, part);
    }
  }

  function AllParts(parts: seq<seq<BatchEntry>>): seq<BatchEntry> {
    if parts == [] then [] else AllParts(parts[..|parts| - 1]) + parts[|parts| - 1]
  }

  predicate ArePartsOf(proofs: seq<CommitmentProof>, parts: seq<seq<BatchEntry>>) {
    |parts| == |proofs| && forall i :: 0 <= i < |proofs| ==> HasEntries(proofs[i], parts[i])
  }

  lemma {:induction false} PartsFlatten(proofs: seq<CommitmentProof>, parts: seq<seq<BatchEntry>>)
    requires ArePartsOf(proofs, parts)
    ensures Flatten(proofs) == Some(AllParts(parts))
  {
    if proofs != [] {
      var n := |proofs| - 1;
      PartsFlatten(proofs[..n], parts[..n]);
      HasEntriesExactly(proofs[n], parts[n]);
    }
  }

  lemma {:induction false} FlattenParts(proofs: seq<CommitmentProof>) returns (parts: seq<seq<BatchEntry>>)
    requires Flatten(proofs).Some?
    ensures ArePartsOf(proofs, parts) && AllParts(parts) == Flatten(proofs).value
  {
    if proofs == [] {
      parts := [];
    } else {
      var n := |proofs| - 1;
      var init := FlattenParts(proofs[..n]);
      var last := Entries(Decompress(proofs[n]).value);
      HasEntriesExactly(proofs[n], last);
      parts := init + [last];
      assert parts[..n] == init;
    }
  }

  /** The entries of all proofs, in order. */
  lemma FlattenExactly(proofs: seq<CommitmentProof>, all: seq<BatchEntry>)
    ensures Flatten(proofs) == Some(all) <==> exists parts :: ArePartsOf(proofs, parts) && AllParts(parts) == all
  {
    if Flatten(proofs) == Some(all) {
      var parts := FlattenParts(proofs);
    }
    forall parts | ArePartsOf(proofs, parts) && AllParts(parts) == all ensures Flatten(proofs) == Some(all) {
      PartsFlatten(proofs, parts);
    }
  }

  lemma MissingIsLater(proofs: seq<CommitmentProof>, i: nat, j: nat)
    requires i <= |proofs| && AllProofs(proofs[..i]) && j < |proofs|
    ensures j < i ==> !proofs[j].NoProof?
  {
    if j < i {
      assert proofs[..i][j] == proofs[j];
    }
  }

  lemma NotMissingFirst(proofs: seq<CommitmentProof>, i: nat)
    requires i < |proofs| && AllProofs(proofs[..i + 1]) && Flatten(proofs[..i + 1]).None?
    ensures !MissingFirst(proofs)
  {
    forall j | 0 <= j < |proofs| && proofs[j].NoProof? ensures Flatten(proofs[..j]).None? {
      MissingIsLater(proofs, i + 1, j);
      assert proofs[..j][..i + 1] == proofs[..i + 1];
      FlattenStops(proofs[..j], i + 1);
    }
  }

  lemma AllThere(proofs: seq<CommitmentProof>)
    requires AllProofs(proofs)
    ensures !MissingFirst(proofs)
  {
  }

  /** The first proof that is missing comes before any that cannot be decompressed. */
  predicate MissingFirst(proofs: seq<CommitmentProof>) {
    exists i :: 0 <= i < |proofs| && proofs[i].NoProof? && AllProofs(proofs[..i]) && Flatten(proofs[..i]).Some?
  }

  /** CombineProofs: one compressed batch of all the entries, in order.  A missing proof is refused unless one before it
      panics; a proof that cannot be decompressed or has a blank entry panics. */
  method CombineProofs(proofs: seq<CommitmentProof>) returns (r: Combination)
    ensures CombinedProof(proofs) == if r.Combined? then Some(r.proof) else None
    ensures r.Combined? <==>
            AllProofs(proofs) && Flatten(proofs).Some? && WellFormed(Flatten(proofs).value)
    ensures r.Refused? <==> MissingFirst(proofs)
  {
    var entries: seq<BatchEntry> := [];
    for i := 0 to |proofs|
      invariant AllProofs(proofs[..i]) && Flatten(proofs[..i]) == Some(entries)
    {
      assert proofs[..i + 1][..i] == proofs[..i];
      match proofs[i]
      case OfExist(ex) => entries := entries + [Exist(ex)];
      case OfNonexist(non) => entries := entries + [Nonexist(non)];
      case OfBatch(batch) => entries := entries + batch;
      case OfCompressed(comp) =>
        var decomp := DecompressBatch(comp);
        if decomp.None? {
          FlattenStops(proofs, i + 1);
          NotMissingFirst(proofs, i);
          return Crashed;
        }
        entries := entries + decomp.value;
      case NoProof => return Refused;
    }
    assert proofs[..|proofs|] == proofs;
    AllThere(proofs);
    var batch := CompressProof(OfBatch(entries));
    if batch.None? {
      return Crashed;
    }
    return Combined(batch.value);
  }

  /** The existence proof that a commitment proof gives for the key. */
  function ExistIn(p: CommitmentProof, key: Bytes): Option<ExistenceProof> {
    match Decompress(p)
    case None => None
    case Some(q) => FirstExist(Entries(q), key)
  }

  function NonexistIn(p: CommitmentProof, key: Bytes): Option<NonExistenceProof> {
    match Decompress(p)
    case None => None
    case Some(q) => FirstNonexist(Entries(q), key)
  }

  /** The first of the proofs that has an existence proof for the key, or the number of proofs. */
  function FirstHolder(proofs: seq<CommitmentProof>, key: Bytes): (r: nat)
    ensures r <= |proofs|
  {
    if proofs == [] then 0
    else
      var before := FirstHolder(proofs[..|proofs| - 1], key);
      if before < |proofs| - 1 || ExistIn(proofs[|proofs| - 1], key).Some? then before else |proofs|
  }

  /** The first of the proofs that has a non-existence proof around the key, or the number of proofs. */
  function FirstBracket(proofs: seq<CommitmentProof>, key: Bytes): (r: nat)
    ensures r <= |proofs|
  {
    if proofs == [] then 0
    else
      var before := FirstBracket(proofs[..|proofs| - 1], key);
      if before < |proofs| - 1 || NonexistIn(proofs[|proofs| - 1], key).Some? then before else |proofs|
  }

  lemma {:induction false} FirstOfConcat(a: seq<BatchEntry>, b: seq<BatchEntry>, key: Bytes)
    ensures FirstExist(a + b, key) == if FirstExist(a, key).Some? then FirstExist(a, key) else FirstExist(b, key)
    ensures FirstNonexist(a + b, key) ==
            if FirstNonexist(a, key).Some? then FirstNonexist(a, key) else FirstNonexist(b, key)
  {
    if a == [] {
      assert a + b == b;
    } else {
      assert (a + b)[1..] == a[1..] + b;
      FirstOfConcat(a[1..], b, key);
    }
  }

  /** The first entry among all entries is the first entry of the first proof that has one. */
  lemma {:induction false} FlattenDecides(proofs: seq<CommitmentProof>, key: Bytes)
    requires Flatten(proofs).Some?
    ensures var i := FirstHolder(proofs, key);
            FirstExist(Flatten(proofs).value, key) == if i < |proofs| then ExistIn(proofs[i], key) else None
    ensures var i := FirstBracket(proofs, key);
            FirstNonexist(Flatten(proofs).value, key) == if i < |proofs| then NonexistIn(proofs[i], key) else None
  {
    if proofs != [] {
      var init, last := proofs[..|proofs| - 1], Decompress(proofs[|proofs| - 1]).value;
      FlattenDecides(init, key);
      FirstOfConcat(Flatten(init).value, Entries(last), key);
      if FirstHolder(init, key) < |init| {
        FirstHolderIs(init, key, FirstHolder(init, key));
      }
      if FirstBracket(init, key) < |init| {
        FirstBracketIs(init, key, FirstBracket(init, key));
      }
    }
  }

  lemma {:induction false} FlattenHas(proofs: seq<CommitmentProof>, i: nat)
    requires Flatten(proofs).Some? && i < |proofs|
    ensures Decompress(proofs[i]).Some?
  {
    if i < |proofs| - 1 {
      FlattenHas(proofs[..|proofs| - 1], i);
    }
  }

  /**
   The verdict of a combined proof on a key is the verdict, on its own, of the first of the proofs that has an entry
   for the key; it is rejected when none has one.
   */
  lemma CombinationVerdict(h: Hasher, spec: ProofSpec, root: Bytes, proofs: seq<CommitmentProof>,
                           key: Bytes, value: Bytes)
    requires Binary(spec.innerSpec) && CombinedProof(proofs).Some?
    requires |Distinct(BatchSteps(Flatten(proofs).value))| <= MAX_TABLE
    ensures var i := FirstHolder(proofs, key);
            VerifyMembership(h, spec, root, CombinedProof(proofs).value, key, value) ==
            if i < |proofs| then VerifyMembership(h, spec, root, proofs[i], key, value) else Rejected
    ensures var i := FirstBracket(proofs, key);
            VerifyNonMembership(h, spec, root, CombinedProof(proofs).value, key) ==
            if i < |proofs| then VerifyNonMembership(h, spec, root, proofs[i], key) else Rejected
  {
    var entries := Flatten(proofs).value;
    CompressionKeepsVerdicts(h, spec, root, OfBatch(entries), key, value);
    VerifyBatch(h, spec, root, entries, key, value);
    FlattenDecides(proofs, key);
    var i, j := FirstHolder(proofs, key), FirstBracket(proofs, key);
    if i < |proofs| {
      FlattenHas(proofs, i);
    }
    if j < |proofs| {
      FlattenHas(proofs, j);
    }
  }

  /** The first holder holds an existence proof for the key, and none before it does. */
  lemma {:induction false} FirstHolderIs(proofs: seq<CommitmentProof>, key: Bytes, i: nat)
    requires i < |proofs|
    ensures i < FirstHolder(proofs, key) ==> ExistIn(proofs[i], key).None?
    ensures i == FirstHolder(proofs, key) ==> ExistIn(proofs[i], key).Some?
  {
    if i < |proofs| - 1 {
      FirstHolderIs(proofs[..|proofs| - 1], key, i);
    }
  }

  lemma {:induction false} FirstBracketIs(proofs: seq<CommitmentProof>, key: Bytes, i: nat)
    requires i < |proofs|
    ensures i < FirstBracket(proofs, key) ==> NonexistIn(proofs[i], key).None?
    ensures i == FirstBracket(proofs, key) ==> NonexistIn(proofs[i], key).Some?
  {
    if i < |proofs| - 1 {
      FirstBracketIs(proofs[..|proofs| - 1], key, i);
    }
  }

  /** What one proof is accepted for, the combination is accepted for if and only if the first proof with an entry
      for the key is. */
  lemma AcceptedAfterCombination(h: Hasher, spec: ProofSpec, root: Bytes, proofs: seq<CommitmentProof>, i: nat,
                                 key: Bytes, value: Bytes)
    requires Binary(spec.innerSpec) && CombinedProof(proofs).Some? && i < |proofs|
    requires |Distinct(BatchSteps(Flatten(proofs).value))| <= MAX_TABLE
    ensures VerifyMembership(h, spec, root, proofs[i], key, value) == Accepted ==>
            var first := FirstHolder(proofs, key);
            && first <= i
            && (VerifyMembership(h, spec, root, CombinedProof(proofs).value, key, value) == Accepted <==>
                VerifyMembership(h, spec, root, proofs[first], key, value) == Accepted)
    ensures VerifyNonMembership(h, spec, root, proofs[i], key) == Accepted ==>
            var first := FirstBracket(proofs, key);
            && first <= i
            && (VerifyNonMembership(h, spec, root, CombinedProof(proofs).value, key) == Accepted <==>
                VerifyNonMembership(h, spec, root, proofs[first], key) == Accepted)
  {
    CombinationVerdict(h, spec, root, proofs, key, value);
    FirstHolderIs(proofs, key, i);
    FirstBracketIs(proofs, key, i);
  }

  /** Combining can change a verdict: a proof that is accepted alone is lost behind an unusable one for its key. */
  lemma EarlierEntryShadows(h: Hasher, spec: ProofSpec, root: Bytes, p: ExistenceProof, value: Bytes)
    requires Binary(spec.innerSpec) && VerifyExistence(h, spec, p, root, p.key, value) && |p.path| <= MAX_TABLE
    ensures var proofs := [OfExist(ExistenceProof(p.key, p.value, None, [])), OfExist(p)];
            && VerifyMembership(h, spec, root, OfExist(p), p.key, value) == Accepted
            && CombinedProof(proofs).Some?
            && VerifyMembership(h, spec, root, CombinedProof(proofs).value, p.key, value) == Rejected
  {
    var unusable := ExistenceProof(p.key, p.value, None, []);
    var proofs := [OfExist(unusable), OfExist(p)];
    CombinedTwo(Exist(unusable), Exist(p));
    CombinationVerdict(h, spec, root, proofs, p.key, value);
    OneExist(h, spec, root, unusable, value);
    OneExist(h, spec, root, p, value);
    FirstHolderIs(proofs, p.key, 0);
  }

  lemma OneExist(h: Hasher, spec: ProofSpec, root: Bytes, p: ExistenceProof, value: Bytes)
    requires Binary(spec.innerSpec)
    ensures ExistIn(OfExist(p), p.key) == Some(p)
    ensures VerifyMembership(h, spec, root, OfExist(p), p.key, value) ==
            if VerifyExistence(h, spec, p, root, p.key, value) then Accepted else Rejected
  {
    assert FirstExist([Exist(p)], p.key) == Some(p);
  }

  /** The same for non-membership: a proof without neighbours, which is never accepted, is found for every key. */
  lemma EarlierBracketShadows(h: Hasher, spec: ProofSpec, root: Bytes, p: NonExistenceProof, key: Bytes)
    requires Binary(spec.innerSpec) && VerifyNonExistence(h, spec, p, root, key) == Accepted
    requires |PathOf(p.left)| + |PathOf(p.right)| <= MAX_TABLE
    ensures var proofs := [OfNonexist(NonExistenceProof(key, None, None)), OfNonexist(p)];
            && VerifyNonMembership(h, spec, root, OfNonexist(p), key) == Accepted
            && CombinedProof(proofs).Some?
            && VerifyNonMembership(h, spec, root, CombinedProof(proofs).value, key) == Rejected
  {
    var unusable := NonExistenceProof(key, None, None);
    var proofs := [OfNonexist(unusable), OfNonexist(p)];
    CombinedTwo(Nonexist(unusable), Nonexist(p));
    CombinationVerdict(h, spec, root, proofs, key, []);
    OneNonexist(h, spec, root, unusable, key);
    OneNonexist(h, spec, root, p, key);
    FirstBracketIs(proofs, key, 0);
  }

  lemma OneNonexist(h: Hasher, spec: ProofSpec, root: Bytes, p: NonExistenceProof, key: Bytes)
    requires Binary(spec.innerSpec) && Brackets(p, key)
    ensures NonexistIn(OfNonexist(p), key) == Some(p)
    ensures VerifyNonMembership(h, spec, root, OfNonexist(p), key) == VerifyNonExistence(h, spec, p, root, key)
  {
    assert FirstNonexist([Nonexist(p)], key) == Some(p);
  }

  /** The proof with just this entry. */
  function Alone(entry: BatchEntry): CommitmentProof
    requires !entry.Blank?
  {
    if entry.Exist? then OfExist(entry.exist) else OfNonexist(entry.nonexist)
  }

  lemma CombinedTwo(x: BatchEntry, y: BatchEntry)
    requires !x.Blank? && !y.Blank?
    ensures CombinedProof([Alone(x), Alone(y)]).Some?
    ensures Flatten([Alone(x), Alone(y)]).Some?
    ensures |Distinct(BatchSteps(Flatten([Alone(x), Alone(y)]).value))| <= |EntrySteps(x)| + |EntrySteps(y)|
  {
    FlattenTwo(x, y);
    StepsOfTwo(x, y);
    DistinctFewer(EntrySteps(x) + EntrySteps(y));
    CombinedOf([Alone(x), Alone(y)]);
  }

  lemma CombinedOf(proofs: seq<CommitmentProof>)
    requires AllProofs(proofs) && Flatten(proofs).Some? && WellFormed(Flatten(proofs).value)
    ensures CombinedProof(proofs).Some?
  {
  }

  lemma FlattenTwo(x: BatchEntry, y: BatchEntry)
    requires !x.Blank? && !y.Blank?
    ensures Flatten([Alone(x), Alone(y)]) == Some([x, y])
  {
    var one, two := [Alone(x)], [Alone(x), Alone(y)];
    assert one[..0] == [] && two[..1] == one;
    assert Flatten(one) == Some([] + [x]);
    assert [] + [x] + [y] == [x, y];
  }

  lemma StepsOfTwo(x: BatchEntry, y: BatchEntry)
    ensures BatchSteps([x, y]) == EntrySteps(x) + EntrySteps(y)
  {
    var one, two := [x], [x, y];
    assert one[..0] == [] && two[..1] == one;
    assert BatchSteps(one) == [] + EntrySteps(x);
    assert [] + EntrySteps(x) == EntrySteps(x);
  }

  // ----- soundness of the entry points -----

  /** No two of the strings hashed for the tree and for the entries of the proof collide. */
  ghost predicate Collisionless(h: Hasher, t: Tree, entries: seq<BatchEntry>) {
    forall i :: 0 <= i < |entries| ==>
      match entries[i]
      case Exist(p) => NoCollisions(h, t, p)
      case Nonexist(n) => (n.left.Some? ==> NoCollisions(h, t, n.left.value))
                          && (n.right.Some? ==> NoCollisions(h, t, n.right.value))
      case Blank => true
  }

  lemma {:induction false} FirstIsOne(entries: seq<BatchEntry>, key: Bytes)
    ensures FirstExist(entries, key).Some? ==> Exist(FirstExist(entries, key).value) in entries
    ensures FirstNonexist(entries, key).Some? ==> Nonexist(FirstNonexist(entries, key).value) in entries
  {
    if entries != [] {
      FirstIsOne(entries[1..], key);
    }
  }

  /** Whatever form the proof has, what it is accepted for is true of the tree. */
  lemma VerifyMembershipSound(h: Hasher, t: Tree, p: CommitmentProof, key: Bytes, value: Bytes)
    requires Shaped(t) && Digests32(h)
    requires Decompress(p).Some? ==> Collisionless(h, t, Entries(Decompress(p).value))
    requires VerifyMembership(h, IavlSpec, TreeHash(h, t), p, key, value) == Accepted
    ensures Contains(t, key, value)
  {
    var entries := Entries(Decompress(p).value);
    FirstIsOne(entries, key);
    MembershipSound(h, t, FirstExist(entries, key).value, key, value);
  }

  lemma VerifyNonMembershipSound(h: Hasher, t: Tree, p: CommitmentProof, key: Bytes)
    requires Shaped(t) && Ordered(t) && Digests32(h)
    requires Decompress(p).Some? ==> Collisionless(h, t, Entries(Decompress(p).value))
    requires VerifyNonMembership(h, IavlSpec, TreeHash(h, t), p, key) == Accepted
    ensures key !in Keys(t)
  {
    var entries := Entries(Decompress(p).value);
    FirstIsOne(entries, key);
    NonMembershipSound(h, t, FirstNonexist(entries, key).value, key);
  }
}
