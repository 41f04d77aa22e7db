/** Soundness of non-existence proofs for IAVL trees: an accepted proof means the key is in no leaf; no check panics. */
module IavlNonMembership {
  import opened Basics
  import opened ByteOrder
  import opened Ics23Types
  import opened Ics23Ops
  import opened Ics23Proof
  import opened IavlTree
  import opened IavlMembership
  import opened IavlCompleteness

  function Keys(t: Tree): set<Bytes> {
    if t.Leaf? then {t.key} else Keys(t.left) + Keys(t.right)
  }

  /** Leaf keys strictly increase from left to right. */
  ghost predicate Ordered(t: Tree) {
    t.Node? ==>
      && Ordered(t.left) && Ordered(t.right)
      && forall a, b :: a in Keys(t.left) && b in Keys(t.right) ==> Less(a, b)
  }

  lemma {:induction false} ClimbsKey(h: Hasher, t: Tree, path: seq<InnerOp>, key: Bytes, value: Bytes)
    requires Climbs(h, t, path, key, value)
    ensures key in Keys(t)
  {
    if path != [] {
      var below := path[..|path| - 1];
      if Climbs(h, t.left, below, key, value) {
        ClimbsKey(h, t.left, below, key, value);
      } else {
        ClimbsKey(h, t.right, below, key, value);
      }
    }
  }

  /** The two steps of a node are told apart by their padding. */
  lemma StepPadding(h: Hasher, t: Tree)
    requires t.Node? && Digests32(h)
    ensures HasPadding(LeftStep(h, t), GetPadding(IavlSpec.innerSpec, 0)) <==> 3 <= |TreeHeader(t)| <= 11
    ensures HasPadding(RightStep(h, t), GetPadding(IavlSpec.innerSpec, 1)) <==> 3 <= |TreeHeader(t)| <= 11
    ensures !HasPadding(LeftStep(h, t), GetPadding(IavlSpec.innerSpec, 1))
    ensures !HasPadding(RightStep(h, t), GetPadding(IavlSpec.innerSpec, 0))
    ensures !SameStep(LeftStep(h, t), RightStep(h, t)) && !SameStep(RightStep(h, t), LeftStep(h, t))
  {
    NodePreimage(h, t);
  }

  lemma NoEmptyChildren(op: InnerOp)
    ensures !LeftBranchesAreEmpty(IavlSpec.innerSpec, op)
    ensures !RightBranchesAreEmpty(IavlSpec.innerSpec, op)
  {
  }

  // ----- soundness -----

  lemma {:induction false} LeftMostIsLeast(h: Hasher, t: Tree, path: seq<InnerOp>, key: Bytes, value: Bytes, k: Bytes)
    requires Digests32(h) && Ordered(t) && Climbs(h, t, path, key, value)
    requires IsLeftMost(IavlSpec.innerSpec, path) && k in Keys(t)
    ensures k == key || Less(key, k)
  {
    if path != [] {
      var below, top := path[..|path| - 1], path[|path| - 1];
      StepPadding(h, t);
      NoEmptyChildren(top);
      assert HasPadding(top, GetPadding(IavlSpec.innerSpec, 0));
      ClimbsKey(h, t.left, below, key, value);
      if k in Keys(t.left) {
        LeftMostIsLeast(h, t.left, below, key, value, k);
      }
    }
  }

  lemma {:induction false} RightMostIsGreatest(
    h: Hasher, t: Tree, path: seq<InnerOp>, key: Bytes, value: Bytes, k: Bytes)
    requires Digests32(h) && Ordered(t) && Climbs(h, t, path, key, value)
    requires IsRightMost(IavlSpec.innerSpec, path) && k in Keys(t)
    ensures k == key || Less(k, key)
  {
    if path != [] {
      var below, top := path[..|path| - 1], path[|path| - 1];
      StepPadding(h, t);
      NoEmptyChildren(top);
      assert HasPadding(top, GetPadding(IavlSpec.innerSpec, 1));
      ClimbsKey(h, t.right, below, key, value);
      if k in Keys(t.right) {
        RightMostIsGreatest(h, t.right, below, key, value, k);
      }
    }
  }

  lemma NotBelow(k: Bytes, least: Bytes, key: Bytes)
    requires Less(key, least) && (k == least || Less(least, k))
    ensures k != key
  {
    if k == key {
      LessTotal(key, least);
    }
  }

  /** Between two neighbouring leaves there is no key. */
  lemma {:induction false} NeighborsHaveNothingBetween(
    h: Hasher, t: Tree, left: seq<InnerOp>, lk: Bytes, lv: Bytes, right: seq<InnerOp>, rk: Bytes, rv: Bytes, key: Bytes)
    requires Digests32(h) && Ordered(t)
    requires Climbs(h, t, left, lk, lv) && Climbs(h, t, right, rk, rv) && Less(lk, key) && Less(key, rk)
    requires IsLeftNeighbor(IavlSpec.innerSpec, left, right) == Accepted
    ensures key !in Keys(t)
  {
    var l, r := |left| - 1, |right| - 1;
    StepPadding(h, t);
    if SameStep(left[l], right[r]) {
      if left[l] == LeftStep(h, t) {
        NeighborsHaveNothingBetween(h, t.left, left[..l], lk, lv, right[..r], rk, rv, key);
        ClimbsKey(h, t.left, right[..r], rk, rv);
        LessIrreflexiveUnder(key, rk);
      } else {
        NeighborsHaveNothingBetween(h, t.right, left[..l], lk, lv, right[..r], rk, rv, key);
        ClimbsKey(h, t.right, left[..l], lk, lv);
        LessIrreflexiveUnder(lk, key);
      }
    } else {
      SplitHere(h, t, left, lk, lv, right, rk, rv, key);
    }
  }

  lemma LessIrreflexiveUnder(a: Bytes, b: Bytes)
    requires Less(a, b)
    ensures !Less(b, a)
  {
    LessTotal(a, b);
  }

  lemma SplitHere(
    h: Hasher, t: Tree, left: seq<InnerOp>, lk: Bytes, lv: Bytes, right: seq<InnerOp>, rk: Bytes, rv: Bytes, key: Bytes)
    requires Digests32(h) && Ordered(t) && left != [] && right != []
    requires Climbs(h, t, left, lk, lv) && Climbs(h, t, right, rk, rv) && Less(lk, key) && Less(key, rk)
    requires !SameStep(left[|left| - 1], right[|right| - 1])
    requires IsLeftNeighbor(IavlSpec.innerSpec, left, right) == Accepted
    ensures key !in Keys(t)
  {
    var l, r := left[..|left| - 1], right[..|right| - 1];
    StepPadding(h, t);
    if key in Keys(t.left) {
      RightMostIsGreatest(h, t.left, l, lk, lv, key);
      LessTotal(lk, key);
      LessIrreflexive(key);
    }
    if key in Keys(t.right) {
      LeftMostIsLeast(h, t.right, r, rk, rv, key);
      NotBelow(key, rk, key);
    }
  }

  /** Non-membership soundness, in its three cases. */
  lemma NonMembershipSound(h: Hasher, t: Tree, p: NonExistenceProof, key: Bytes)
    requires Shaped(t) && Ordered(t) && Digests32(h)
    requires p.left.Some? ==> NoCollisions(h, t, p.left.value)
    requires p.right.Some? ==> NoCollisions(h, t, p.right.value)
    requires VerifyNonExistence(h, IavlSpec, p, TreeHash(h, t), key) == Accepted
    ensures key !in Keys(t)
  {
    if p.left.Some? {
      MembershipSound(h, t, p.left.value, p.left.value.key, p.left.value.value);
    }
    if p.right.Some? {
      MembershipSound(h, t, p.right.value, p.right.value.key, p.right.value.value);
    }
    if key in Keys(t) && p.left.None? {
      LeftMostIsLeast(h, t, p.right.value.path, p.right.value.key, p.right.value.value, key);
      NotBelow(key, p.right.value.key, key);
    } else if key in Keys(t) && p.right.None? {
      RightMostIsGreatest(h, t, p.left.value.path, p.left.value.key, p.left.value.value, key);
      LessTotal(p.left.value.key, key);
      LessIrreflexive(key);
    } else if p.left.Some? && p.right.Some? {
      NeighborsHaveNothingBetween(h, t, p.left.value.path, p.left.value.key, p.left.value.value,
                                  p.right.value.path, p.right.value.key, p.right.value.value, key);
    }
  }

  // ----- the stripping loop never runs out of path -----

  /** Two checked leaf operations with the same preimage have the same key. */
  lemma SameLeafKey(h: Hasher, a: LeafOp, ak: Bytes, av: Bytes, b: LeafOp, bk: Bytes, bv: Bytes)
    requires CheckLeaf(a, IavlSpec) && CheckLeaf(b, IavlSpec)
    requires LeafStart(h, a, ak, av) == LeafStart(h, b, bk, bv)
    ensures ak == bk
  {
    var x, y := LengthPrefixed(ak) + LengthPrefixed(h.sha256(av)), LengthPrefixed(bk) + LengthPrefixed(h.sha256(bv));
    assert LeafStart(h, a, ak, av) == a.prefix + x && LeafStart(h, b, bk, bv) == b.prefix + y;
    ReadHeaderExtends(a.prefix, x, 3);
    ReadHeaderExtends(b.prefix, y, 3);
    Cut(a.prefix, x, b.prefix, y);
    LengthPrefixedCut(ak, LengthPrefixed(h.sha256(av)), bk, LengthPrefixed(h.sha256(bv)));
  }

  /** A checked leaf operation and a checked inner operation never hash the same bytes. */
  lemma LeafIsNotInner(h: Hasher, leaf: LeafOp, key: Bytes, value: Bytes, op: InnerOp, child: Bytes, layer: int)
    requires CheckLeaf(leaf, IavlSpec) && CheckInner(op, IavlSpec, layer)
    ensures LeafStart(h, leaf, key, value) != op.prefix + child + op.suffix
  {
    assert LeafStart(h, leaf, key, value)[0] == leaf.prefix[0] == IavlSpec.leafSpec.prefix[0] == 0;
    assert (op.prefix + child + op.suffix)[0] == op.prefix[0];
    assert op.prefix[0] != 0 by {
      assert op.prefix[..1] == [op.prefix[0]];
    }
  }

  /** Two checked proofs of different keys for one root part before either path ends.  No tree is assumed,
      only that nothing collides among what the two proofs hash. */
  lemma {:induction false} PathsPart(
    h: Hasher, a: LeafOp, ak: Bytes, av: Bytes, left: seq<InnerOp>,
    b: LeafOp, bk: Bytes, bv: Bytes, right: seq<InnerOp>)
    requires Digests32(h) && ak != bk
    requires CheckLeaf(a, IavlSpec) && CheckLeaf(b, IavlSpec) && CheckPath(left, IavlSpec) && CheckPath(right, IavlSpec)
    requires CollisionFree(h, ProofHashed(h, a, ak, av, left) + ProofHashed(h, b, bk, bv, right))
    requires Climb(h, h.sha256(LeafStart(h, a, ak, av)), left) == Climb(h, h.sha256(LeafStart(h, b, bk, bv)), right)
    ensures SplitPaths(left, right).Some?
  {
    var x, y := h.sha256(LeafStart(h, a, ak, av)), h.sha256(LeafStart(h, b, bk, bv));
    var l, r := |left| - 1, |right| - 1;
    if left == [] && right == [] {
      SameLeafKey(h, a, ak, av, b, bk, bv);
    } else if left == [] {
      LeafIsNotInner(h, a, ak, av, right[r], Climb(h, y, right[..r]), |right|);
    } else if right == [] {
      LeafIsNotInner(h, b, bk, bv, left[l], Climb(h, x, left[..l]), |left|);
    } else if SameStep(left[l], right[r]) {
      var p, q := Climb(h, x, left[..l]), Climb(h, y, right[..r]);
      CheckPathFront(left);
      CheckPathFront(right);
      PathDigest(h, x, left[..l]);
      PathDigest(h, y, right[..r]);
      assert left[l].prefix + p + left[l].suffix == right[r].prefix + q + right[r].suffix;
      Middle(left[l].prefix, p, q, left[l].suffix);
      PathsPart(h, a, ak, av, left[..l], b, bk, bv, right[..r]);
    }
  }

  lemma Middle(a: Bytes, x: Bytes, y: Bytes, b: Bytes)
    requires a + x + b == a + y + b && |x| == |y|
    ensures x == y
  {
    assert x == (a + x + b)[|a|..|a| + |x|] && y == (a + y + b)[|a|..|a| + |y|];
  }

  ghost predicate NoCollisionsBetween(h: Hasher, p: ExistenceProof, q: ExistenceProof) {
    p.leaf.Some? && q.leaf.Some? ==>
      CollisionFree(h, ProofHashed(h, p.leaf.value, p.key, p.value, p.path) +
                       ProofHashed(h, q.leaf.value, q.key, q.value, q.path))
  }

  /** The stripping loop never indexes an exhausted path on proofs that verify against one root. */
  lemma StrippingIsSafe(h: Hasher, left: ExistenceProof, right: ExistenceProof, root: Bytes, key: Bytes)
    requires Digests32(h) && NoCollisionsBetween(h, left, right)
    requires VerifyExistence(h, IavlSpec, left, root, left.key, left.value)
    requires VerifyExistence(h, IavlSpec, right, root, right.key, right.value)
    requires Less(left.key, key) && Less(key, right.key)
    ensures SplitPaths(left.path, right.path).Some?
  {
    VerifyMeans(h, left, root, left.key, left.value);
    VerifyMeans(h, right, root, right.key, right.value);
    LessTransitive(left.key, key, right.key);
    LessIrreflexive(left.key);
    PathsPart(h, left.leaf.value, left.key, left.value, left.path,
              right.leaf.value, right.key, right.value, right.path);
  }

  /** A step from the right that passes its check has a short header, so both steps have their padding. */
  lemma CheckedRightStep(h: Hasher, t: Tree, layer: int)
    requires t.Node? && Shaped(t) && Digests32(h) && CheckInner(RightStep(h, t), IavlSpec, layer)
    ensures OrderFromPadding(IavlSpec.innerSpec, LeftStep(h, t)).Some?
    ensures OrderFromPadding(IavlSpec.innerSpec, RightStep(h, t)).Some?
  {
    StepPadding(h, t);
    HeaderLength(t.height, t.size, t.version);
    NodePreimage(h, t);
  }

  /** Checked paths from two different leaves part before either ends, at steps whose padding is found. */
  lemma {:induction false} PathsSplit(
    h: Hasher, t: Tree, left: seq<InnerOp>, lk: Bytes, lv: Bytes, right: seq<InnerOp>, rk: Bytes, rv: Bytes)
    requires Digests32(h) && Shaped(t) && lk != rk
    requires Climbs(h, t, left, lk, lv) && Climbs(h, t, right, rk, rv)
    requires CheckPath(left, IavlSpec) && CheckPath(right, IavlSpec)
    ensures SplitPaths(left, right).Some?
    ensures var s := SplitPaths(left, right).value;
            && OrderFromPadding(IavlSpec.innerSpec, s.topLeft).Some?
            && OrderFromPadding(IavlSpec.innerSpec, s.topRight).Some?
  {
    var l, r := |left| - 1, |right| - 1;
    StepPadding(h, t);
    CheckPathFront(left);
    CheckPathFront(right);
    if left[l] == right[r] == LeftStep(h, t) {
      PathsSplit(h, t.left, left[..l], lk, lv, right[..r], rk, rv);
    } else if left[l] == right[r] {
      PathsSplit(h, t.right, left[..l], lk, lv, right[..r], rk, rv);
    } else {
      CheckedRightStep(h, t, if left[l] == RightStep(h, t) then |left| else |right|);
    }
  }

  /** A verified proof climbs the tree by checked steps. */
  lemma VerifiedClimbs(h: Hasher, t: Tree, p: ExistenceProof)
    requires Shaped(t) && Digests32(h) && NoCollisions(h, t, p)
    requires VerifyExistence(h, IavlSpec, p, TreeHash(h, t), p.key, p.value)
    ensures Climbs(h, t, p.path, p.key, p.value) && CheckPath(p.path, IavlSpec)
  {
    MembershipSound(h, t, p, p.key, p.value);
  }

  lemma PathsCompare(
    h: Hasher, t: Tree, left: seq<InnerOp>, lk: Bytes, lv: Bytes, right: seq<InnerOp>, rk: Bytes, rv: Bytes)
    requires Digests32(h) && Shaped(t) && lk != rk
    requires Climbs(h, t, left, lk, lv) && Climbs(h, t, right, rk, rv)
    requires CheckPath(left, IavlSpec) && CheckPath(right, IavlSpec)
    ensures IsLeftNeighbor(IavlSpec.innerSpec, left, right) != Panicked
  {
    PathsSplit(h, t, left, lk, lv, right, rk, rv);
  }

  /** Two verified proofs of different keys have paths that can be compared. */
  lemma NeighborsCompare(h: Hasher, t: Tree, left: ExistenceProof, right: ExistenceProof)
    requires Shaped(t) && Digests32(h) && NoCollisions(h, t, left) && NoCollisions(h, t, right)
    requires VerifyExistence(h, IavlSpec, left, TreeHash(h, t), left.key, left.value)
    requires VerifyExistence(h, IavlSpec, right, TreeHash(h, t), right.key, right.value)
    requires left.key != right.key
    ensures IsLeftNeighbor(IavlSpec.innerSpec, left.path, right.path) != Panicked
  {
    VerifiedClimbs(h, t, left);
    VerifiedClimbs(h, t, right);
    PathsCompare(h, t, left.path, left.key, left.value, right.path, right.key, right.value);
  }

  /** Verification of a non-existence proof never panics. */
  lemma VerificationNeverPanics(h: Hasher, t: Tree, p: NonExistenceProof, key: Bytes)
    requires Shaped(t) && Digests32(h)
    requires p.left.Some? ==> NoCollisions(h, t, p.left.value)
    requires p.right.Some? ==> NoCollisions(h, t, p.right.value)
    ensures VerifyNonExistence(h, IavlSpec, p, TreeHash(h, t), key) != Panicked
  {
    if p.left.Some? && p.right.Some? {
      var left, right, root := p.left.value, p.right.value, TreeHash(h, t);
      if VerifyExistence(h, IavlSpec, left, root, left.key, left.value)
         && VerifyExistence(h, IavlSpec, right, root, right.key, right.value)
         && Less(left.key, key) && Less(key, right.key) {
        LessTransitive(left.key, key, right.key);
        LessIrreflexive(left.key);
        NeighborsCompare(h, t, left, right);
      }
    }
  }
}
