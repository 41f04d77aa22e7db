/** The comparison of paths for the IAVL format, in full: outermost and neighbouring paths, and when it panics. */
module IavlNeighbors {
  import opened Basics
  import opened ByteOrder
  import opened Ics23Types
  import opened Ics23Ops
  import opened Ics23Proof

  /** A step from a left child: up to twelve bytes in front of it, and one child behind. */
  predicate LeftTurn(op: InnerOp) {
    4 <= |op.prefix| <= 12 && |op.suffix| == 33
  }

  /** A step from a right child: one child and up to twelve bytes in front of it, and nothing behind. */
  predicate RightTurn(op: InnerOp) {
    37 <= |op.prefix| <= 45 && |op.suffix| == 0
  }

  predicate AllLeft(path: seq<InnerOp>) {
    forall i :: 0 <= i < |path| ==> LeftTurn(path[i])
  }

  predicate AllRight(path: seq<InnerOp>) {
    forall i :: 0 <= i < |path| ==> RightTurn(path[i])
  }

  lemma TurnsExactly(op: InnerOp)
    ensures OrderFromPadding(IavlSpec.innerSpec, op) == Some(0) <==> LeftTurn(op)
    ensures OrderFromPadding(IavlSpec.innerSpec, op) == Some(1) <==> RightTurn(op)
    ensures !LeftBranchesAreEmpty(IavlSpec.innerSpec, op) && !RightBranchesAreEmpty(IavlSpec.innerSpec, op)
  {
  }

  /** The empty child of the format is no child, so only the turns count. */
  lemma MostExactly(path: seq<InnerOp>)
    ensures IsLeftMost(IavlSpec.innerSpec, path) <==> AllLeft(path)
    ensures IsRightMost(IavlSpec.innerSpec, path) <==> AllRight(path)
  {
    forall i | 0 <= i < |path|
      ensures !LeftBranchesAreEmpty(IavlSpec.innerSpec, path[i]) && !RightBranchesAreEmpty(IavlSpec.innerSpec, path[i])
    {
      TurnsExactly(path[i]);
    }
  }

  /** The steps i below the root are the same. */
  predicate SameAt(left: seq<InnerOp>, right: seq<InnerOp>, i: nat) {
    i < |left| && i < |right| && SameStep(left[|left| - 1 - i], right[|right| - 1 - i])
  }

  /** From the root down the paths share n steps. */
  predicate Shares(left: seq<InnerOp>, right: seq<InnerOp>, n: nat) {
    forall i: nat :: i < n ==> SameAt(left, right, i)
  }

  /** They share n steps and differ in the next. */
  predicate PartAfter(left: seq<InnerOp>, right: seq<InnerOp>, n: nat) {
    n < |left| && n < |right| && Shares(left, right, n) && !SameAt(left, right, n)
  }

  function SplitAfter(left: seq<InnerOp>, right: seq<InnerOp>, n: nat): Split
    requires n < |left| && n < |right|
  {
    var l, r := |left| - 1 - n, |right| - 1 - n;
    Split(left[..l], left[l], right[..r], right[r])
  }

  lemma SameBelow(left: seq<InnerOp>, right: seq<InnerOp>, i: nat)
    requires left != [] && right != []
    ensures SameAt(left, right, i + 1) <==> SameAt(left[..|left| - 1], right[..|right| - 1], i)
  {
  }

  lemma SharesOne(left: seq<InnerOp>, right: seq<InnerOp>, n: nat)
    requires left != [] && right != [] && SameAt(left, right, 0)
    requires Shares(left[..|left| - 1], right[..|right| - 1], n)
    ensures Shares(left, right, n + 1)
  {
    forall i: nat | i < n + 1 ensures SameAt(left, right, i) {
      if i > 0 {
        SameBelow(left, right, i - 1);
      }
    }
  }

  /** The stripping loop in full: where the paths part, or that one runs out. */
  lemma {:induction false} SplitExactly(left: seq<InnerOp>, right: seq<InnerOp>) returns (n: nat)
    ensures n <= |left| && n <= |right| && Shares(left, right, n)
    ensures if n == |left| || n == |right| then SplitPaths(left, right) == None
            else PartAfter(left, right, n) && SplitPaths(left, right) == Some(SplitAfter(left, right, n))
  {
    if left == [] || right == [] || !SameAt(left, right, 0) {
      n := 0;
    } else {
      var l, r := left[..|left| - 1], right[..|right| - 1];
      var m := SplitExactly(l, r);
      SharesOne(left, right, m);
      SameBelow(left, right, m);
      n := m + 1;
      if m < |l| && m < |r| {
        assert l[..|l| - 1 - m] == left[..|left| - 1 - n] && r[..|r| - 1 - m] == right[..|right| - 1 - n];
      }
    }
  }

  /** Paths part once. */
  lemma PartOnce(left: seq<InnerOp>, right: seq<InnerOp>, n: nat, m: nat)
    requires PartAfter(left, right, n) && Shares(left, right, m)
    ensures m <= n && (PartAfter(left, right, m) ==> n == m)
  {
  }

  /** Neighbours: behind the steps they share the left path turns left and then right all the way down, the right path
      turns right and then left all the way down. */
  predicate NeighborAfter(left: seq<InnerOp>, right: seq<InnerOp>, n: nat) {
    && PartAfter(left, right, n)
    && var s := SplitAfter(left, right, n);
       LeftTurn(s.topLeft) && RightTurn(s.topRight) && AllRight(s.left) && AllLeft(s.right)
  }

  /** The steps at which the paths part are no turns. */
  predicate LostAfter(left: seq<InnerOp>, right: seq<InnerOp>, n: nat) {
    && PartAfter(left, right, n)
    && var s := SplitAfter(left, right, n);
       !(LeftTurn(s.topLeft) || RightTurn(s.topLeft)) || !(LeftTurn(s.topRight) || RightTurn(s.topRight))
  }

  /** IsLeftNeighbor in full. */
  lemma NeighborExactly(left: seq<InnerOp>, right: seq<InnerOp>)
    ensures IsLeftNeighbor(IavlSpec.innerSpec, left, right) == Accepted <==>
            exists n :: NeighborAfter(left, right, n)
    ensures IsLeftNeighbor(IavlSpec.innerSpec, left, right) == Panicked <==>
            || Shares(left, right, |left|) || Shares(left, right, |right|)
            || exists n :: LostAfter(left, right, n)
  {
    var n := SplitExactly(left, right);
    if n < |left| && n < |right| {
      PartedExactly(left, right, n);
    } else {
      NeverPart(left, right, n);
    }
  }

  lemma NeverPart(left: seq<InnerOp>, right: seq<InnerOp>, n: nat)
    requires Shares(left, right, n) && (n == |left| || n == |right|)
    ensures forall m: nat :: !PartAfter(left, right, m)
  {
  }

  lemma PartedExactly(left: seq<InnerOp>, right: seq<InnerOp>, n: nat)
    requires PartAfter(left, right, n) && SplitPaths(left, right) == Some(SplitAfter(left, right, n))
    ensures IsLeftNeighbor(IavlSpec.innerSpec, left, right) == Accepted <==> exists m :: NeighborAfter(left, right, m)
    ensures IsLeftNeighbor(IavlSpec.innerSpec, left, right) == Panicked <==> exists m :: LostAfter(left, right, m)
    ensures !Shares(left, right, |left|) && !Shares(left, right, |right|)
  {
    var s := SplitAfter(left, right, n);
    TurnsExactly(s.topLeft);
    TurnsExactly(s.topRight);
    MostExactly(s.left);
    MostExactly(s.right);
    assert IsLeftNeighbor(IavlSpec.innerSpec, left, right) == Accepted <==> NeighborAfter(left, right, n);
    assert IsLeftNeighbor(IavlSpec.innerSpec, left, right) == Panicked <==> LostAfter(left, right, n);
    forall m: nat | PartAfter(left, right, m) ensures m == n {
      PartOnce(left, right, n, m);
    }
  }

  /** Verification of a non-existence proof in full: every proof in it is accepted for its own key and value, the key is
      between them, and they are neighbours, or the one that is there is the first or the last. */
  lemma NonExistenceExactly(h: Hasher, p: NonExistenceProof, root: Bytes, key: Bytes)
    ensures VerifyNonExistence(h, IavlSpec, p, root, key) == Accepted <==>
            && (p.left.Some? ==> SmallerIn(h, p.left.value, root, key))
            && (p.right.Some? ==> GreaterIn(h, p.right.value, root, key))
            && (if p.left.Some? && p.right.Some? then
                  exists n :: NeighborAfter(p.left.value.path, p.right.value.path, n)
                else if p.left.Some? then AllRight(p.left.value.path)
                else p.right.Some? && AllLeft(p.right.value.path))
  {
    if p.left.Some? {
      MostExactly(p.left.value.path);
    }
    if p.right.Some? {
      MostExactly(p.right.value.path);
    }
    if p.left.Some? && p.right.Some? {
      NeighborExactly(p.left.value.path, p.right.value.path);
    }
  }

  predicate SmallerIn(h: Hasher, p: ExistenceProof, root: Bytes, key: Bytes) {
    VerifyExistence(h, IavlSpec, p, root, p.key, p.value) && Less(p.key, key)
  }

  predicate GreaterIn(h: Hasher, p: ExistenceProof, root: Bytes, key: Bytes) {
    VerifyExistence(h, IavlSpec, p, root, p.key, p.value) && Less(key, p.key)
  }
}
