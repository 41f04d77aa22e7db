/** Completeness of non-existence proofs: when the two neighbours of an absent key make an accepted proof. */
module IavlAbsence {
  import opened Basics
  import opened ByteOrder
  import opened Ics23Types
  import opened Ics23Ops
  import opened Ics23Proof
  import opened IavlTree
  import opened IavlMembership
  import opened IavlCompleteness
  import opened IavlNonMembership

  /** The last leaf with a smaller key. */
  function Before(t: Tree, key: Bytes): (r: Option<seq<Turn>>)
    ensures r.Some? ==> LeadsToLeaf(t, r.value) && Less(LeafAt(t, r.value).key, key)
    ensures r.None? ==> forall k :: k in Keys(t) ==> !Less(k, key)
  {
    if t.Leaf? then (if Less(t.key, key) then Some([]) else None)
    else
      var inRight := Before(t.right, key);
      if inRight.Some? then Some([Right] + inRight.value)
      else
        var inLeft := Before(t.left, key);
        if inLeft.Some? then Some([Left] + inLeft.value) else None
  }

  /** The first leaf with a greater key. */
  function After(t: Tree, key: Bytes): (r: Option<seq<Turn>>)
    ensures r.Some? ==> LeadsToLeaf(t, r.value) && Less(key, LeafAt(t, r.value).key)
    ensures r.None? ==> forall k :: k in Keys(t) ==> !Less(key, k)
  {
    if t.Leaf? then (if Less(key, t.key) then Some([]) else None)
    else
      var inLeft := After(t.left, key);
      if inLeft.Some? then Some([Left] + inLeft.value)
      else
        var inRight := After(t.right, key);
        if inRight.Some? then Some([Right] + inRight.value) else None
  }

  function ProofOf(h: Hasher, t: Tree, turns: Option<seq<Turn>>): Option<ExistenceProof>
    requires turns.Some? ==> LeadsToLeaf(t, turns.value)
  {
    if turns.None? then None else Some(ProofAt(h, t, turns.value))
  }

  /** The non-existence proof made of both neighbours. */
  function AbsenceProof(h: Hasher, t: Tree, key: Bytes): NonExistenceProof {
    NonExistenceProof(key, ProofOf(h, t, Before(t, key)), ProofOf(h, t, After(t, key)))
  }

  // ----- when the proof is accepted -----

  /** The leaf has a key and a value, and the path to it is tall enough and short where it turns right. */
  predicate Readable(t: Tree, turns: seq<Turn>)
    requires LeadsToLeaf(t, turns)
  {
    && LeafAt(t, turns).key != [] && LeafAt(t, turns).value != []
    && NarrowRightTurns(t, turns) && TallEnough(t, turns)
  }

  /** Wherever the path turns left the header is at most eleven bytes long. */
  predicate NarrowLeftTurns(t: Tree, turns: seq<Turn>)
    requires LeadsToLeaf(t, turns)
  {
    turns != [] ==>
      && (turns[0].Left? ==> |TreeHeader(t)| <= 11)
      && NarrowLeftTurns(if turns[0].Left? then t.left else t.right, turns[1..])
  }

  /** Below the node where the two paths part, the path `after` is short where it turns left. */
  predicate NarrowAfterSplit(t: Tree, before: seq<Turn>, after: seq<Turn>)
    requires LeadsToLeaf(t, before) && LeadsToLeaf(t, after)
  {
    before != [] && after != [] ==>
      var child := if after[0].Left? then t.left else t.right;
      if before[0] == after[0] then NarrowAfterSplit(child, before[1..], after[1..])
      else NarrowLeftTurns(child, after[1..])
  }

  /** What the proof of absence needs: two readable neighbours, the greater one left-most above the smaller one. */
  predicate Provable(t: Tree, key: Bytes) {
    var b, a := Before(t, key), After(t, key);
    && (b.Some? ==> Readable(t, b.value)) && (a.Some? ==> Readable(t, a.value))
    && (a.Some? ==> if b.Some? then NarrowAfterSplit(t, b.value, a.value) else NarrowLeftTurns(t, a.value))
  }

  lemma {:induction false} SomeKey(t: Tree) returns (k: Bytes)
    ensures k in Keys(t)
  {
    if t.Leaf? {
      k := t.key;
    } else {
      k := SomeKey(t.left);
    }
  }

  lemma RightMostSnoc(below: seq<InnerOp>, top: InnerOp)
    ensures IsRightMost(IavlSpec.innerSpec, below + [top]) <==>
            IsRightMost(IavlSpec.innerSpec, below) && HasPadding(top, GetPadding(IavlSpec.innerSpec, 1))
  {
    var path := below + [top];
    assert path[|below|] == top && forall i :: 0 <= i < |below| ==> path[i] == below[i];
    forall op ensures !RightBranchesAreEmpty(IavlSpec.innerSpec, op) { NoEmptyChildren(op); }
  }

  lemma LeftMostSnoc(below: seq<InnerOp>, top: InnerOp)
    ensures IsLeftMost(IavlSpec.innerSpec, below + [top]) <==>
            IsLeftMost(IavlSpec.innerSpec, below) && HasPadding(top, GetPadding(IavlSpec.innerSpec, 0))
  {
    var path := below + [top];
    assert path[|below|] == top && forall i :: 0 <= i < |below| ==> path[i] == below[i];
    forall op ensures !LeftBranchesAreEmpty(IavlSpec.innerSpec, op) { NoEmptyChildren(op); }
  }

  /** Without a greater key, the last smaller one is right-most if its path is short. */
  lemma {:induction false} NothingAfter(h: Hasher, t: Tree, key: Bytes)
    requires Digests32(h) && Shaped(t) && key !in Keys(t) && After(t, key).None?
    ensures Before(t, key).Some?
    ensures NarrowRightTurns(t, Before(t, key).value) ==>
            IsRightMost(IavlSpec.innerSpec, PathAt(h, t, Before(t, key).value))
  {
    var k := SomeKey(t);
    LessTotal(k, key);
    if t.Node? {
      NothingAfter(h, t.right, key);
      StepPadding(h, t);
      HeaderLength(t.height, t.size, t.version);
      var turns := Before(t, key).value;
      assert turns[0] == Right && turns[1..] == Before(t.right, key).value;
      RightMostSnoc(PathAt(h, t.right, turns[1..]), RightStep(h, t));
    }
  }

  /** Without a smaller key, the first greater one is left-most exactly if its path is short. */
  lemma {:induction false} NothingBefore(h: Hasher, t: Tree, key: Bytes)
    requires Digests32(h) && Shaped(t) && key !in Keys(t) && Before(t, key).None?
    ensures After(t, key).Some?
    ensures NarrowLeftTurns(t, After(t, key).value) <==>
            IsLeftMost(IavlSpec.innerSpec, PathAt(h, t, After(t, key).value))
  {
    var k := SomeKey(t);
    LessTotal(k, key);
    if t.Node? {
      NothingBefore(h, t.left, key);
      StepPadding(h, t);
      HeaderLength(t.height, t.size, t.version);
      var turns := After(t, key).value;
      assert turns[0] == Left && turns[1..] == After(t.left, key).value;
      LeftMostSnoc(PathAt(h, t.left, turns[1..]), LeftStep(h, t));
    }
  }

  lemma SplitSnoc(left: seq<InnerOp>, a: InnerOp, right: seq<InnerOp>, b: InnerOp)
    ensures SplitPaths(left + [a], right + [b]) ==
            if SameStep(a, b) then SplitPaths(left, right) else Some(Split(left, a, right, b))
  {
    assert (left + [a])[..|left|] == left && (right + [b])[..|right|] == right;
  }

  lemma {:induction false} LeafKey(t: Tree, turns: seq<Turn>)
    requires LeadsToLeaf(t, turns)
    ensures LeafAt(t, turns).key in Keys(t)
  {
    if turns != [] {
      LeafKey(if turns[0].Left? then t.left else t.right, turns[1..]);
    }
  }

  /** With keys on both sides the two neighbours are recognised as neighbours exactly if the paths are short. */
  lemma {:induction false} BothNeighbors(h: Hasher, t: Tree, key: Bytes)
    requires Digests32(h) && Shaped(t) && Ordered(t) && key !in Keys(t)
    requires Before(t, key).Some? && After(t, key).Some?
    requires NarrowRightTurns(t, Before(t, key).value) && NarrowRightTurns(t, After(t, key).value)
    ensures var b, a := Before(t, key).value, After(t, key).value;
            IsLeftNeighbor(IavlSpec.innerSpec, PathAt(h, t, b), PathAt(h, t, a)) == Accepted <==>
            NarrowAfterSplit(t, b, a)
  {
    var b, a := Before(t, key).value, After(t, key).value;
    if t.Leaf? {
      LessTotal(t.key, key);
    } else {
      if Before(t.right, key).Some? {
        KeysLeftAreSmaller(t, key);
        assert a[0] == b[0] == Right && a[1..] == After(t.right, key).value && b[1..] == Before(t.right, key).value;
        BothNeighbors(h, t.right, key);
        SharedStep(PathAt(h, t.right, b[1..]), PathAt(h, t.right, a[1..]), RightStep(h, t));
      } else if After(t.left, key).Some? {
        assert a[0] == b[0] == Left && a[1..] == After(t.left, key).value && b[1..] == Before(t.left, key).value;
        BothNeighbors(h, t.left, key);
        SharedStep(PathAt(h, t.left, b[1..]), PathAt(h, t.left, a[1..]), LeftStep(h, t));
      } else {
        assert b[0] == Left && b[1..] == Before(t.left, key).value;
        assert a[0] == Right && a[1..] == After(t.right, key).value;
        NothingAfter(h, t.left, key);
        NothingBefore(h, t.right, key);
        NeighborsHere(h, t, PathAt(h, t.left, b[1..]), PathAt(h, t.right, a[1..]));
      }
    }
  }

  /** A step that both paths share is stripped. */
  lemma SharedStep(left: seq<InnerOp>, right: seq<InnerOp>, step: InnerOp)
    ensures IsLeftNeighbor(IavlSpec.innerSpec, left + [step], right + [step]) ==
            IsLeftNeighbor(IavlSpec.innerSpec, left, right)
  {
    SplitSnoc(left, step, right, step);
  }

  /** Paths that part at a node with a short header: neighbours if the left is right-most and the right left-most. */
  lemma NeighborsHere(h: Hasher, t: Tree, left: seq<InnerOp>, right: seq<InnerOp>)
    requires t.Node? && Shaped(t) && Digests32(h) && |TreeHeader(t)| <= 11 && IsRightMost(IavlSpec.innerSpec, left)
    ensures IsLeftNeighbor(IavlSpec.innerSpec, left + [LeftStep(h, t)], right + [RightStep(h, t)]) == Accepted <==>
            IsLeftMost(IavlSpec.innerSpec, right)
  {
    StepPadding(h, t);
    HeaderLength(t.height, t.size, t.version);
    SplitSnoc(left, LeftStep(h, t), right, RightStep(h, t));
  }

  lemma KeysLeftAreSmaller(t: Tree, key: Bytes)
    requires t.Node? && Ordered(t) && Before(t.right, key).Some?
    ensures After(t.left, key).None?
  {
    var small := LeafAt(t.right, Before(t.right, key).value).key;
    LeafKey(t.right, Before(t.right, key).value);
    if After(t.left, key).Some? {
      var big := LeafAt(t.left, After(t.left, key).value).key;
      LeafKey(t.left, After(t.left, key).value);
      LessTransitive(big, small, key);
      LessTotal(big, key);
    }
  }

  /** Non-membership completeness, with its exact condition: the two neighbours of an absent key make an accepted
      proof if and only if both can be read and the headers of certain nodes on their paths are short. */
  lemma NonMembershipComplete(h: Hasher, t: Tree, key: Bytes)
    requires Shaped(t) && Ordered(t) && Digests32(h) && key !in Keys(t)
    ensures VerifyNonExistence(h, IavlSpec, AbsenceProof(h, t, key), TreeHash(h, t), key) == Accepted <==>
            Provable(t, key)
  {
    var b, a := Before(t, key), After(t, key);
    if b.Some? {
      MembershipComplete(h, t, b.value);
    }
    if a.Some? {
      MembershipComplete(h, t, a.value);
    }
    if a.None? {
      NothingAfter(h, t, key);
    } else if b.None? {
      NothingBefore(h, t, key);
    } else if Readable(t, b.value) && Readable(t, a.value) {
      BothNeighbors(h, t, key);
    }
  }

  // ----- trees in which everything can be proved -----

  /** Every leaf has a key and a value, and every header is at most eleven bytes long. */
  predicate Plain(t: Tree) {
    if t.Leaf? then t.key != [] && t.value != []
    else |TreeHeader(t)| <= 11 && Plain(t.left) && Plain(t.right)
  }

  lemma {:induction false} PlainPath(t: Tree, turns: seq<Turn>)
    requires LeadsToLeaf(t, turns) && Plain(t)
    ensures LeafAt(t, turns).key != [] && LeafAt(t, turns).value != []
    ensures NarrowRightTurns(t, turns) && NarrowLeftTurns(t, turns)
  {
    if turns != [] {
      PlainPath(if turns[0].Left? then t.left else t.right, turns[1..]);
    }
  }

  lemma {:induction false} PlainSplit(t: Tree, before: seq<Turn>, after: seq<Turn>)
    requires LeadsToLeaf(t, before) && LeadsToLeaf(t, after) && Plain(t)
    ensures NarrowAfterSplit(t, before, after)
  {
    if before != [] && after != [] {
      var child := if after[0].Left? then t.left else t.right;
      if before[0] == after[0] {
        PlainSplit(child, before[1..], after[1..]);
      } else {
        PlainPath(child, after[1..]);
      }
    }
  }

  lemma PlainIsReadable(t: Tree, turns: seq<Turn>)
    requires LeadsToLeaf(t, turns) && Plain(t) && Heights(t)
    ensures Readable(t, turns)
  {
    PlainPath(t, turns);
    HeightsAreTall(t, turns);
  }

  /** In such a tree, with height fields that are right, every absent key has an accepted proof. */
  lemma PlainTreesAreProvable(t: Tree, key: Bytes)
    requires Plain(t) && Heights(t)
    ensures Provable(t, key)
  {
    var b, a := Before(t, key), After(t, key);
    if b.Some? {
      PlainIsReadable(t, b.value);
    }
    if a.Some? {
      PlainIsReadable(t, a.value);
      PlainPath(t, a.value);
      if b.Some? {
        PlainSplit(t, b.value, a.value);
      }
    }
  }

  /** Position binding: on one root a key cannot be proved with two values. */
  lemma PositionBinding(h: Hasher, t: Tree, p: ExistenceProof, q: ExistenceProof, key: Bytes, v: Bytes, w: Bytes)
    requires Shaped(t) && Ordered(t) && Digests32(h) && NoCollisions(h, t, p) && NoCollisions(h, t, q)
    requires VerifyExistence(h, IavlSpec, p, TreeHash(h, t), key, v)
    requires VerifyExistence(h, IavlSpec, q, TreeHash(h, t), key, w)
    ensures v == w
  {
    MembershipSound(h, t, p, key, v);
    MembershipSound(h, t, q, key, w);
    OneValue(t, key, v, w);
  }

  /** On one root a key that is proved present cannot be proved absent. */
  lemma PresentIsNotAbsent(h: Hasher, t: Tree, p: ExistenceProof, q: NonExistenceProof, key: Bytes, value: Bytes)
    requires Shaped(t) && Ordered(t) && Digests32(h) && NoCollisions(h, t, p)
    requires q.left.Some? ==> NoCollisions(h, t, q.left.value)
    requires q.right.Some? ==> NoCollisions(h, t, q.right.value)
    requires VerifyExistence(h, IavlSpec, p, TreeHash(h, t), key, value)
    ensures VerifyNonExistence(h, IavlSpec, q, TreeHash(h, t), key) != Accepted
  {
    MembershipSound(h, t, p, key, value);
    ContainsKey(t, key, value);
    if VerifyNonExistence(h, IavlSpec, q, TreeHash(h, t), key) == Accepted {
      NonMembershipSound(h, t, q, key);
    }
  }

  lemma {:induction false} ContainsKey(t: Tree, key: Bytes, v: Bytes)
    requires Contains(t, key, v)
    ensures key in Keys(t)
  {
    if t.Node? {
      if Contains(t.left, key, v) {
        ContainsKey(t.left, key, v);
      } else {
        ContainsKey(t.right, key, v);
      }
    }
  }

  lemma {:induction false} OneValue(t: Tree, key: Bytes, v: Bytes, w: Bytes)
    requires Ordered(t) && Contains(t, key, v) && Contains(t, key, w)
    ensures v == w
  {
    if t.Node? {
      LessIrreflexive(key);
      if Contains(t.left, key, v) {
        ContainsKey(t.left, key, v);
        if Contains(t.right, key, w) {
          ContainsKey(t.right, key, w);
        }
        OneValue(t.left, key, v, w);
      } else {
        ContainsKey(t.right, key, v);
        if Contains(t.left, key, w) {
          ContainsKey(t.left, key, w);
        }
        OneValue(t.right, key, v, w);
      }
    }
  }
}
