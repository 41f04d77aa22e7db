/** Completeness of existence proofs: the proof read off a tree is accepted, and exactly when. */
module IavlCompleteness {
  import opened Basics
  import opened Varint
  import opened Ics23Types
  import opened Ics23Ops
  import opened Ics23Proof
  import opened IavlTree
  import opened IavlMembership

  datatype Turn = Left | Right

  /** The turns lead from the root of t to a leaf. */
  predicate LeadsToLeaf(t: Tree, turns: seq<Turn>) {
    if turns == [] then t.Leaf?
    else t.Node? && LeadsToLeaf(if turns[0].Left? then t.left else t.right, turns[1..])
  }

  function LeafAt(t: Tree, turns: seq<Turn>): (r: Tree)
    requires LeadsToLeaf(t, turns)
    ensures r.Leaf?
  {
    if turns == [] then t else LeafAt(if turns[0].Left? then t.left else t.right, turns[1..])
  }

  /** The inner operations from that leaf up to the root. */
  function PathAt(h: Hasher, t: Tree, turns: seq<Turn>): (path: seq<InnerOp>)
    requires LeadsToLeaf(t, turns)
    ensures |path| == |turns|
  {
    if turns == [] then []
    else if turns[0].Left? then PathAt(h, t.left, turns[1..]) + [LeftStep(h, t)]
    else PathAt(h, t.right, turns[1..]) + [RightStep(h, t)]
  }

  function LeafOpOf(t: Tree): LeafOp {
    LeafOp(SHA256, NO_HASH, SHA256, VAR_PROTO, TreeHeader(t))
  }

  /** The existence proof read off the tree. */
  function ProofAt(h: Hasher, t: Tree, turns: seq<Turn>): ExistenceProof
    requires LeadsToLeaf(t, turns)
  {
    var leaf := LeafAt(t, turns);
    ExistenceProof(leaf.key, leaf.value, Some(LeafOpOf(leaf)), PathAt(h, t, turns))
  }

  function HeightOf(t: Tree): nat {
    if t.Leaf? then 0 else t.height
  }

  /** The height fields are what the shape of the tree says. */
  predicate Heights(t: Tree) {
    t.Node? ==>
      && t.height == 1 + (if HeightOf(t.left) < HeightOf(t.right) then HeightOf(t.right) else HeightOf(t.left))
      && Heights(t.left) && Heights(t.right)
  }

  /** Wherever the path turns right the header is at most eleven bytes long. */
  predicate NarrowRightTurns(t: Tree, turns: seq<Turn>)
    requires LeadsToLeaf(t, turns)
  {
    turns != [] ==>
      && (turns[0].Right? ==> |TreeHeader(t)| <= 11)
      && NarrowRightTurns(if turns[0].Left? then t.left else t.right, turns[1..])
  }

  /** Every node on the path has a height field of at least its distance from the leaf. */
  predicate TallEnough(t: Tree, turns: seq<Turn>)
    requires LeadsToLeaf(t, turns)
  {
    turns != [] ==> t.height >= |turns| && TallEnough(if turns[0].Left? then t.left else t.right, turns[1..])
  }

  /** Where the height fields are right every path is. */
  lemma {:induction false} HeightsAreTall(t: Tree, turns: seq<Turn>)
    requires LeadsToLeaf(t, turns) && Heights(t)
    ensures TallEnough(t, turns) && |turns| <= HeightOf(t)
  {
    if turns != [] {
      HeightsAreTall(if turns[0].Left? then t.left else t.right, turns[1..]);
    }
  }

  /** Either step of a node hashes to the node. */
  lemma StepHashes(h: Hasher, t: Tree)
    requires t.Node? && Digests32(h)
    ensures LeftStep(h, t).prefix + TreeHash(h, t.left) + LeftStep(h, t).suffix == Preimage(h, t)
    ensures RightStep(h, t).prefix + TreeHash(h, t.right) + RightStep(h, t).suffix == Preimage(h, t)
  {
    NodePreimage(h, t);
    StepParts(TreeHeader(t), TreeHash(h, t.left), TreeHash(h, t.right));
  }

  lemma StepParts(head: Bytes, l: Bytes, r: Bytes)
    ensures head + [32] + l + ([32] + r) == head + ([32] + l) + ([32] + r)
    ensures head + ([32] + l) + [32] + r + [] == head + ([32] + l) + ([32] + r)
  {
  }

  lemma ClimbSnoc(h: Hasher, start: Bytes, below: seq<InnerOp>, top: InnerOp)
    ensures Climb(h, start, below + [top]) == h.sha256(top.prefix + Climb(h, start, below) + top.suffix)
  {
    assert (below + [top])[..|below|] == below;
  }

  lemma {:induction false} ClimbPath(h: Hasher, t: Tree, turns: seq<Turn>)
    requires LeadsToLeaf(t, turns) && Digests32(h)
    ensures Climb(h, TreeHash(h, LeafAt(t, turns)), PathAt(h, t, turns)) == TreeHash(h, t)
  {
    if turns != [] {
      StepHashes(h, t);
      var start := TreeHash(h, LeafAt(t, turns));
      if turns[0].Left? {
        ClimbPath(h, t.left, turns[1..]);
        ClimbSnoc(h, start, PathAt(h, t.left, turns[1..]), LeftStep(h, t));
      } else {
        ClimbPath(h, t.right, turns[1..]);
        ClimbSnoc(h, start, PathAt(h, t.right, turns[1..]), RightStep(h, t));
      }
    }
  }

  lemma HeaderLength(height: nat, size: nat, version: nat)
    requires height < TWO63 && size < TWO63 && version < TWO63
    ensures 3 <= |Header(height, size, version)| <= 30
  {
    EncodeFits(2 * height);
    EncodeFits(2 * size);
    EncodeFits(2 * version);
  }

  lemma NodePrefixChecks(t: Tree, more: Bytes, layer: int)
    requires t.Node? && Shaped(t) && 1 <= layer && (|more| == 1 || |more| == 34)
    ensures IavlPrefix(TreeHeader(t) + more, SHA256, layer) <==> layer <= t.height
    ensures !([0] <= TreeHeader(t) + more)
  {
    ReadHeaderOf(t.height, t.size, t.version, more);
    FirstByte(t.height);
    assert (TreeHeader(t) + more)[0] == PutVarint(t.height)[0];
  }

  /** A step of a tree passes its check exactly if the height field is at least the layer and, coming from the right,
      the header is at most eleven bytes long. */
  lemma StepChecks(h: Hasher, t: Tree, layer: int)
    requires t.Node? && Shaped(t) && Digests32(h) && 1 <= layer
    ensures CheckInner(LeftStep(h, t), IavlSpec, layer) <==> layer <= t.height
    ensures CheckInner(RightStep(h, t), IavlSpec, layer) <==> layer <= t.height && |TreeHeader(t)| <= 11
  {
    HeaderLength(t.height, t.size, t.version);
    NodePreimage(h, t);
    NodePrefixChecks(t, [32], layer);
    var more := [32] + TreeHash(h, t.left) + [32];
    NodePrefixChecks(t, more, layer);
    assert RightStep(h, t).prefix == TreeHeader(t) + more;
  }

  lemma CheckPathSnoc(below: seq<InnerOp>, top: InnerOp)
    ensures CheckPath(below + [top], IavlSpec) <==> CheckPath(below, IavlSpec) && CheckInner(top, IavlSpec, |below| + 1)
  {
    var path := below + [top];
    assert forall i :: 0 <= i < |below| ==> path[i] == below[i];
    assert path[|below|] == top;
  }

  lemma {:induction false} PathChecks(h: Hasher, t: Tree, turns: seq<Turn>)
    requires LeadsToLeaf(t, turns) && Shaped(t) && Digests32(h)
    ensures CheckPath(PathAt(h, t, turns), IavlSpec) <==> NarrowRightTurns(t, turns) && TallEnough(t, turns)
  {
    if turns != [] {
      if turns[0].Left? {
        PathChecks(h, t.left, turns[1..]);
        CheckPathSnoc(PathAt(h, t.left, turns[1..]), LeftStep(h, t));
      } else {
        PathChecks(h, t.right, turns[1..]);
        CheckPathSnoc(PathAt(h, t.right, turns[1..]), RightStep(h, t));
      }
      StepChecks(h, t, |turns|);
    }
  }

  lemma LeafChecks(t: Tree)
    requires t.Leaf? && Shaped(t)
    ensures CheckLeaf(LeafOpOf(t), IavlSpec)
  {
    ReadHeaderOf(0, 1, t.version, []);
    assert TreeHeader(t) + [] == TreeHeader(t);
    FirstByte(0);
    assert TreeHeader(t)[0] == PutVarint(0)[0] == 0;
  }

  lemma {:induction false} LeafShaped(t: Tree, turns: seq<Turn>)
    requires LeadsToLeaf(t, turns) && Shaped(t)
    ensures Shaped(LeafAt(t, turns))
  {
    if turns != [] {
      LeafShaped(if turns[0].Left? then t.left else t.right, turns[1..]);
    }
  }

  /** Membership completeness, with its exact condition: the proof read off a tree is accepted for that leaf's key and
      value if and only if both are non-empty, no right turn has a long header and every node on the path is tall
      enough. */
  lemma MembershipComplete(h: Hasher, t: Tree, turns: seq<Turn>)
    requires LeadsToLeaf(t, turns) && Shaped(t) && Digests32(h)
    ensures var leaf := LeafAt(t, turns);
            VerifyExistence(h, IavlSpec, ProofAt(h, t, turns), TreeHash(h, t), leaf.key, leaf.value) <==>
            leaf.key != [] && leaf.value != [] && NarrowRightTurns(t, turns) && TallEnough(t, turns)
  {
    var leaf := LeafAt(t, turns);
    VerifyMeans(h, ProofAt(h, t, turns), TreeHash(h, t), leaf.key, leaf.value);
    LeafShaped(t, turns);
    LeafChecks(leaf);
    PathChecks(h, t, turns);
    ClimbPath(h, t, turns);
    assert LeafStart(h, LeafOpOf(leaf), leaf.key, leaf.value) == Preimage(h, leaf);
  }

  /** Every entry of a tree has a leaf to read a proof off. */
  lemma {:induction false} LeafOf(t: Tree, key: Bytes, value: Bytes) returns (turns: seq<Turn>)
    requires Contains(t, key, value)
    ensures LeadsToLeaf(t, turns) && LeafAt(t, turns).key == key && LeafAt(t, turns).value == value
  {
    if t.Leaf? {
      turns := [];
    } else if Contains(t.left, key, value) {
      var below := LeafOf(t.left, key, value);
      turns := [Left] + below;
    } else {
      var below := LeafOf(t.right, key, value);
      turns := [Right] + below;
    }
  }
}
