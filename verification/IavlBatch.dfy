/** Batches over an IAVL tree: one combined and compressed proof answers any list of questions about the tree. */
module IavlBatch {
  import opened Basics
  import opened Ics23Types
  import opened Ics23Ops
  import opened Ics23Proof
  import opened Ics23Compress
  import opened Ics23Batch
  import opened IavlTree
  import opened IavlCompleteness
  import opened IavlNonMembership
  import opened IavlAbsence

  /** A question: about a leaf of the tree, or about a key that it does not hold. */
  datatype Question = Present(turns: seq<Turn>) | Absent(key: Bytes)

  /** The proof read off the tree for the question would be accepted on its own. */
  predicate Answerable(t: Tree, q: Question) {
    match q
    case Present(turns) => LeadsToLeaf(t, turns) && Readable(t, turns)
    case Absent(key) => key !in Keys(t) && Provable(t, key)
  }

  function Answer(h: Hasher, t: Tree, q: Question): BatchEntry
    requires Answerable(t, q)
  {
    match q
    case Present(turns) => Exist(ProofAt(h, t, turns))
    case Absent(key) => Nonexist(AbsenceProof(h, t, key))
  }

  function Answers(h: Hasher, t: Tree, questions: seq<Question>): (r: seq<BatchEntry>)
    requires AllAnswerable(t, questions)
    ensures |r| == |questions| && forall i :: 0 <= i < |questions| ==> r[i] == Answer(h, t, questions[i])
  {
    if questions == [] then [] else [Answer(h, t, questions[0])] + Answers(h, t, questions[1..])
  }

  /** A tree as the store builds it. */
  ghost predicate Proper(h: Hasher, t: Tree) {
    Shaped(t) && Ordered(t) && Digests32(h)
  }

  lemma {:induction false} SomeFirst(entries: seq<BatchEntry>, i: nat, key: Bytes)
    requires i < |entries|
    ensures ExistFor(entries[i], key) ==>
            FirstExist(entries, key).Some? && ExistFor(Exist(FirstExist(entries, key).value), key)
    ensures NonexistFor(entries[i], key) ==>
            FirstNonexist(entries, key).Some? && NonexistFor(Nonexist(FirstNonexist(entries, key).value), key)
  {
    if i > 0 {
      SomeFirst(entries[1..], i - 1, key);
    }
  }

  lemma {:induction false} LeafIsContained(t: Tree, turns: seq<Turn>)
    requires LeadsToLeaf(t, turns)
    ensures Contains(t, LeafAt(t, turns).key, LeafAt(t, turns).value)
  {
    if turns != [] {
      LeafIsContained(if turns[0].Left? then t.left else t.right, turns[1..]);
    }
  }

  /** A non-existence proof that is accepted for one key is accepted for every key it brackets, and for no other. */
  lemma AcceptedForBracketed(h: Hasher, spec: ProofSpec, p: NonExistenceProof, root: Bytes, key: Bytes, other: Bytes)
    requires Binary(spec.innerSpec) && VerifyNonExistence(h, spec, p, root, key) == Accepted
    ensures VerifyNonExistence(h, spec, p, root, other) == Accepted <==> Brackets(p, other)
  {
  }

  /** The two leaves next to an absent key bracket it. */
  lemma AbsenceBrackets(h: Hasher, t: Tree, key: Bytes)
    ensures Brackets(AbsenceProof(h, t, key), key)
  {
  }

  predicate AllAnswerable(t: Tree, questions: seq<Question>) {
    forall i :: 0 <= i < |questions| ==> Answerable(t, questions[i])
  }

  lemma PresentAnswered(h: Hasher, t: Tree, questions: seq<Question>, i: nat, turns: seq<Turn>)
    requires Proper(h, t) && AllAnswerable(t, questions)
    requires i < |questions| && questions[i] == Present(turns) && LeadsToLeaf(t, turns)
    ensures var leaf := LeafAt(t, turns);
            ExistVerdict(h, IavlSpec, TreeHash(h, t), FirstExist(Answers(h, t, questions), leaf.key),
                         leaf.key, leaf.value) == Accepted
  {
    var entries, leaf := Answers(h, t, questions), LeafAt(t, turns);
    assert entries[i] == Answer(h, t, questions[i]);
    SomeFirst(entries, i, leaf.key);
    FirstIsOne(entries, leaf.key);
    var first := FirstExist(entries, leaf.key).value;
    var j :| 0 <= j < |entries| && entries[j] == Exist(first);
    assert entries[j] == Answer(h, t, questions[j]);
    var found := questions[j].turns;
    MembershipComplete(h, t, found);
    LeafIsContained(t, found);
    LeafIsContained(t, turns);
    OneValue(t, leaf.key, LeafAt(t, found).value, leaf.value);
  }

  lemma AbsentAnswered(h: Hasher, t: Tree, questions: seq<Question>, i: nat, key: Bytes)
    requires Proper(h, t) && AllAnswerable(t, questions)
    requires i < |questions| && questions[i] == Absent(key)
    ensures NonexistVerdict(h, IavlSpec, TreeHash(h, t), FirstNonexist(Answers(h, t, questions), key), key) == Accepted
  {
    var entries := Answers(h, t, questions);
    assert entries[i] == Answer(h, t, questions[i]);
    AbsenceBrackets(h, t, key);
    SomeFirst(entries, i, key);
    FirstIsOne(entries, key);
    var first := FirstNonexist(entries, key).value;
    var j :| 0 <= j < |entries| && entries[j] == Nonexist(first);
    assert entries[j] == Answer(h, t, questions[j]);
    NonMembershipComplete(h, t, questions[j].key);
    AcceptedForBracketed(h, IavlSpec, first, TreeHash(h, t), questions[j].key, key);
  }

  /** The proof settles the question: it proves the leaf, or disproves the key. */
  predicate Settles(h: Hasher, t: Tree, proof: CommitmentProof, q: Question)
    requires Answerable(t, q)
  {
    match q
    case Present(turns) =>
      VerifyMembership(h, IavlSpec, TreeHash(h, t), proof, LeafAt(t, turns).key, LeafAt(t, turns).value) == Accepted
    case Absent(key) => VerifyNonMembership(h, IavlSpec, TreeHash(h, t), proof, key) == Accepted
  }

  lemma BatchSettles(h: Hasher, t: Tree, questions: seq<Question>, i: nat)
    requires Proper(h, t) && AllAnswerable(t, questions) && i < |questions| && Answerable(t, questions[i])
    ensures Settles(h, t, OfBatch(Answers(h, t, questions)), questions[i])
  {
    match questions[i]
    case Present(turns) =>
      PresentAnswered(h, t, questions, i, turns);
      VerifyBatch(h, IavlSpec, TreeHash(h, t), Answers(h, t, questions), LeafAt(t, turns).key, LeafAt(t, turns).value);
    case Absent(key) =>
      AbsentAnswered(h, t, questions, i, key);
      VerifyBatch(h, IavlSpec, TreeHash(h, t), Answers(h, t, questions), key, []);
  }

  lemma AnswersWellFormed(h: Hasher, t: Tree, questions: seq<Question>)
    requires AllAnswerable(t, questions)
    ensures WellFormed(Answers(h, t, questions))
  {
  }

  /** The compressed batch of all answers proves every leaf asked for and disproves every absent key asked for. */
  lemma BatchComplete(h: Hasher, t: Tree, questions: seq<Question>, proof: CommitmentProof, i: nat)
    requires Proper(h, t) && AllAnswerable(t, questions) && i < |questions| && Answerable(t, questions[i])
    requires Compress(OfBatch(Answers(h, t, questions))) == Some(proof)
    requires |Distinct(BatchSteps(Answers(h, t, questions)))| <= MAX_TABLE
    ensures Settles(h, t, proof, questions[i])
  {
    BatchSettles(h, t, questions, i);
    AnswersWellFormed(h, t, questions);
    var batch, root := OfBatch(Answers(h, t, questions)), TreeHash(h, t);
    match questions[i]
    case Present(turns) =>
      CompressionKeepsVerdicts(h, IavlSpec, root, batch, LeafAt(t, turns).key, LeafAt(t, turns).value);
    case Absent(key) => CompressionKeepsVerdicts(h, IavlSpec, root, batch, key, []);
  }
}
