/** The assumptions of the soundness theorems can be met: a tree of two leaves, accepted proofs, no collision. */
module IavlWitness {
  import opened Basics
  import opened Sequences
  import opened ByteOrder
  import opened Ics23Types
  import opened Ics23Ops
  import opened Ics23Proof
  import opened IavlTree
  import opened IavlMembership
  import opened IavlCompleteness
  import opened IavlNonMembership
  import opened IavlAbsence

  const LOW: Bytes := [5]
  const HIGH: Bytes := [9]
  const VALUE: Bytes := [7]
  const BETWEEN: Bytes := [7]

  const LowLeaf: Tree := Leaf(0, LOW, VALUE)
  const HighLeaf: Tree := Leaf(0, HIGH, VALUE)
  const TwoLeaves: Tree := Node(1, 2, 0, LowLeaf, HighLeaf)

  function Digest(b: Byte): (r: Bytes)
    ensures |r| == 32 && r[0] == b
  {
    seq(32, _ => b)
  }

  /** What a leaf hashes when its value hashes to Digest(1). */
  function LeafText(key: Bytes): Bytes {
    Header(0, 1, 0) + LengthPrefixed(key) + LengthPrefixed(Digest(1))
  }

  /** A hash that tells the value, the two leaves and everything else apart. */
  const Telling: Hasher :=
    Hasher(x => if x == VALUE then Digest(1) else if x == LeafText(LOW) then Digest(2)
                else if x == LeafText(HIGH) then Digest(3) else Digest(4),
           x => x, x => x, x => x)

  lemma LeafTexts()
    ensures LeafText(LOW) != LeafText(HIGH) && LeafText(LOW) != VALUE && LeafText(HIGH) != VALUE
    ensures Preimage(Telling, LowLeaf) == LeafText(LOW) && Preimage(Telling, HighLeaf) == LeafText(HIGH)
  {
    Associate(Header(0, 1, 0), LengthPrefixed(LOW), LengthPrefixed(Digest(1)));
    Associate(Header(0, 1, 0), LengthPrefixed(HIGH), LengthPrefixed(Digest(1)));
    if LeafText(LOW) == LeafText(HIGH) {
      Cut(Header(0, 1, 0), LengthPrefixed(LOW) + LengthPrefixed(Digest(1)),
          Header(0, 1, 0), LengthPrefixed(HIGH) + LengthPrefixed(Digest(1)));
      LengthPrefixedCut(LOW, LengthPrefixed(Digest(1)), HIGH, LengthPrefixed(Digest(1)));
    }
  }

  /** The node hashes none of the other strings. */
  lemma NodeText()
    ensures Preimage(Telling, TwoLeaves) != LeafText(LOW) && Preimage(Telling, TwoLeaves) != LeafText(HIGH)
    ensures Preimage(Telling, TwoLeaves) != VALUE
  {
    LeafTexts();
    DomainSeparation(Telling, TwoLeaves);
    DomainSeparation(Telling, LowLeaf);
    DomainSeparation(Telling, HighLeaf);
    assert |Preimage(Telling, TwoLeaves)| > 1;
  }

  ghost function All(): set<Bytes> {
    {VALUE, LeafText(LOW), LeafText(HIGH), Preimage(Telling, TwoLeaves)}
  }

  lemma NothingCollides()
    ensures CollisionFree(Telling, All()) && Digests32(Telling)
  {
    LeafTexts();
    NodeText();
    assert Digest(1)[0] != Digest(2)[0] && Digest(2)[0] != Digest(3)[0] && Digest(3)[0] != Digest(4)[0];
    assert Digest(1)[0] != Digest(3)[0] && Digest(1)[0] != Digest(4)[0] && Digest(2)[0] != Digest(4)[0];
  }

  lemma TreeHashesThese()
    ensures TreeHashed(Telling, TwoLeaves) <= All()
  {
    LeafTexts();
    assert TreeHashed(Telling, LowLeaf) == {LeafText(LOW), VALUE};
    assert TreeHashed(Telling, HighLeaf) == {LeafText(HIGH), VALUE};
  }

  lemma OneStepHashes(h: Hasher, start: Bytes, step: InnerOp)
    ensures PathHashed(h, start, [step]) == {step.prefix + start + step.suffix}
  {
    assert [step][..0] == [];
  }

  function LeafOn(turn: Turn): Tree {
    if turn.Left? then LowLeaf else HighLeaf
  }

  function StepOn(turn: Turn): InnerOp {
    if turn.Left? then LeftStep(Telling, TwoLeaves) else RightStep(Telling, TwoLeaves)
  }

  lemma ProofOn(turn: Turn)
    ensures LeadsToLeaf(TwoLeaves, [turn])
    ensures ProofAt(Telling, TwoLeaves, [turn]) ==
            ExistenceProof(LeafOn(turn).key, VALUE, Some(LeafOpOf(LeafOn(turn))), [StepOn(turn)])
  {
    assert [turn][1..] == [];
    assert LeafAt(LeafOn(turn), []) == LeafOn(turn) && PathAt(Telling, LeafOn(turn), []) == [];
    assert PathAt(Telling, TwoLeaves, [turn]) == [] + [StepOn(turn)];
    assert LeafAt(TwoLeaves, [turn]) == LeafOn(turn);
  }

  /** The proof of either leaf hashes nothing that the tree does not hash. */
  lemma ProofHashesThese(turn: Turn)
    ensures ProofHashed(Telling, LeafOpOf(LeafOn(turn)), LeafOn(turn).key, VALUE, [StepOn(turn)]) <= All()
  {
    LeafTexts();
    NothingCollides();
    StepHashes(Telling, TwoLeaves);
    var start := LeafStart(Telling, LeafOpOf(LeafOn(turn)), LeafOn(turn).key, VALUE);
    assert start == LeafText(LeafOn(turn).key);
    OneStepHashes(Telling, Telling.sha256(start), StepOn(turn));
  }

  lemma NoCollisionsHere(turn: Turn)
    ensures LeadsToLeaf(TwoLeaves, [turn])
    ensures NoCollisions(Telling, TwoLeaves, ProofAt(Telling, TwoLeaves, [turn]))
  {
    ProofOn(turn);
    ProofHashesThese(turn);
    TreeHashesThese();
    NothingCollides();
    var p := ProofAt(Telling, TwoLeaves, [turn]);
    FewerCollide(Telling, All(),
                 TreeHashed(Telling, TwoLeaves) + ProofHashed(Telling, p.leaf.value, p.key, p.value, p.path));
  }

  lemma TreeIsPlain()
    ensures Shaped(TwoLeaves) && Heights(TwoLeaves) && Ordered(TwoLeaves) && Plain(TwoLeaves)
    ensures Keys(TwoLeaves) == {LOW, HIGH} && BETWEEN !in Keys(TwoLeaves)
  {
    assert Less(LOW, HIGH);
  }

  /** Membership proofs, one turn from the root, that meet every assumption of soundness and are accepted. */
  lemma MembershipIsNotVacuous(turn: Turn)
    ensures Shaped(TwoLeaves) && Digests32(Telling) && LeadsToLeaf(TwoLeaves, [turn])
    ensures var p := ProofAt(Telling, TwoLeaves, [turn]);
            && NoCollisions(Telling, TwoLeaves, p)
            && VerifyExistence(Telling, IavlSpec, p, TreeHash(Telling, TwoLeaves), p.key, p.value)
  {
    TreeIsPlain();
    NothingCollides();
    NoCollisionsHere(turn);
    PlainIsReadable(TwoLeaves, [turn]);
    MembershipComplete(Telling, TwoLeaves, [turn]);
  }

  /** A non-membership proof of two neighbours that meets every assumption of soundness and is accepted. */
  lemma NonMembershipIsNotVacuous()
    ensures Shaped(TwoLeaves) && Ordered(TwoLeaves) && Digests32(Telling)
    ensures var p := AbsenceProof(Telling, TwoLeaves, BETWEEN);
            && p.left.Some? && p.right.Some?
            && NoCollisions(Telling, TwoLeaves, p.left.value) && NoCollisions(Telling, TwoLeaves, p.right.value)
            && VerifyNonExistence(Telling, IavlSpec, p, TreeHash(Telling, TwoLeaves), BETWEEN) == Accepted
  {
    TreeIsPlain();
    NothingCollides();
    NoCollisionsHere(Left);
    NoCollisionsHere(Right);
    Neighbours();
    PlainTreesAreProvable(TwoLeaves, BETWEEN);
    NonMembershipComplete(Telling, TwoLeaves, BETWEEN);
  }

  lemma Neighbours()
    ensures Before(TwoLeaves, BETWEEN) == Some([Left]) && After(TwoLeaves, BETWEEN) == Some([Right])
  {
    assert Less(LOW, BETWEEN) && !Less(BETWEEN, LOW) && Less(BETWEEN, HIGH) && !Less(HIGH, BETWEEN);
    assert Before(LowLeaf, BETWEEN) == Some([]) && Before(HighLeaf, BETWEEN) == None;
    assert After(LowLeaf, BETWEEN) == None && After(HighLeaf, BETWEEN) == Some([]);
    assert [Left] + [] == [Left] && [Right] + [] == [Right];
  }
}
