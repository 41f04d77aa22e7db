/** Verification of existence and non-existence proofs. */
module Ics23Proof {
  import opened Basics
  import opened ByteOrder
  import opened Ics23Types
  import opened Ics23Ops

  // ----- existence proofs -----

  /** Where the calculation of a root stands; a result longer than a child may be stops it. */
  datatype Calculation = Failed | Oversize | Root(hash: Bytes)

  function Calculate(h: Hasher, spec: ProofSpec, leaf: Bytes, path: seq<InnerOp>): Calculation {
    if path == [] then Root(leaf)
    else
      match Calculate(h, spec, leaf, path[..|path| - 1])
      case Failed => Failed
      case Oversize => Oversize
      case Root(child) =>
        match ApplyInner(h, path[|path| - 1], child)
        case None => Failed
        case Some(res) =>
          if |res| > spec.innerSpec.childSize && spec.innerSpec.childSize >= 32 then Oversize else Root(res)
  }

  /** The loop of calculate.  An oversize result makes it return nil and no error. */
  method CalculateRoot(h: Hasher, spec: ProofSpec, p: ExistenceProof) returns (r: Option<Bytes>)
    ensures r == if p.leaf.None? then None
                 else match ApplyLeaf(h, p.leaf.value, p.key, p.value)
                      case None => None
                      case Some(leaf) =>
                        match Calculate(h, spec, leaf, p.path)
                        case Failed => None
                        case Oversize => Some([])
                        case Root(hash) => Some(hash)
  {
    if p.leaf.None? {
      return None;
    }
    r := ApplyLeaf(h, p.leaf.value, p.key, p.value);
    if r.None? {
      return None;
    }
    ghost var leaf := r.value;
    for i := 0 to |p.path|
      invariant r.Some? && Calculate(h, spec, leaf, p.path[..i]) == Root(r.value)
    {
      assert p.path[..i + 1][..i] == p.path[..i];
      r := ApplyInner(h, p.path[i], r.value);
      if r.None? {
        CalculateStops(h, spec, leaf, p.path, i + 1);
        return None;
      }
      if |r.value| > spec.innerSpec.childSize && spec.innerSpec.childSize >= 32 {
        CalculateStops(h, spec, leaf, p.path, i + 1);
        return Some([]);
      }
    }
    assert p.path[..|p.path|] == p.path;
  }

  lemma {:induction false} CalculateStops(h: Hasher, spec: ProofSpec, leaf: Bytes, path: seq<InnerOp>, i: nat)
    requires i <= |path| && !Calculate(h, spec, leaf, path[..i]).Root?
    ensures Calculate(h, spec, leaf, path) == Calculate(h, spec, leaf, path[..i])
    decreases |path| - i
  {
    if i == |path| {
      assert path[..i] == path;
    } else {
      assert path[..i + 1][..i] == path[..i];
      CalculateStops(h, spec, leaf, path, i + 1);
    }
  }

  predicate TooLong(spec: ProofSpec, hash: Bytes) {
    spec.innerSpec.childSize >= 32 && |hash| > spec.innerSpec.childSize
  }

  /** The step takes one hash to the next, which is not too long. */
  predicate Link(h: Hasher, spec: ProofSpec, step: InnerOp, hash: Bytes, next: Bytes) {
    ApplyInner(h, step, hash) == Some(next) && !TooLong(spec, next)
  }

  /** The hashes on the way up. */
  predicate Chain(h: Hasher, spec: ProofSpec, hashes: seq<Bytes>, path: seq<InnerOp>) {
    |hashes| == |path| + 1 && forall i :: 0 <= i < |path| ==> Link(h, spec, path[i], hashes[i], hashes[i + 1])
  }

  lemma ChainMore(h: Hasher, spec: ProofSpec, hashes: seq<Bytes>, path: seq<InnerOp>)
    requires path != [] && |hashes| == |path| + 1
    ensures var n := |path| - 1;
            Chain(h, spec, hashes, path) <==>
            Chain(h, spec, hashes[..|path|], path[..n]) && Link(h, spec, path[n], hashes[n], hashes[n + 1])
  {
    if Chain(h, spec, hashes[..|path|], path[..|path| - 1]) {
      forall i | 0 <= i < |path| - 1 ensures Link(h, spec, path[i], hashes[i], hashes[i + 1]) {
        assert hashes[..|path|][i] == hashes[i] && hashes[..|path|][i + 1] == hashes[i + 1];
        assert path[..|path| - 1][i] == path[i];
      }
    }
  }

  lemma {:induction false} ChainGives(h: Hasher, spec: ProofSpec, hashes: seq<Bytes>, path: seq<InnerOp>)
    requires Chain(h, spec, hashes, path)
    ensures Calculate(h, spec, hashes[0], path) == Root(hashes[|path|])
  {
    if path != [] {
      ChainMore(h, spec, hashes, path);
      ChainGives(h, spec, hashes[..|path|], path[..|path| - 1]);
    }
  }

  lemma {:induction false} ChainOf(h: Hasher, spec: ProofSpec, leaf: Bytes, path: seq<InnerOp>)
    returns (hashes: seq<Bytes>)
    requires Calculate(h, spec, leaf, path).Root?
    ensures Chain(h, spec, hashes, path) && hashes[0] == leaf
    ensures hashes[|path|] == Calculate(h, spec, leaf, path).hash
  {
    if path == [] {
      hashes := [leaf];
    } else {
      var init := ChainOf(h, spec, leaf, path[..|path| - 1]);
      hashes := init + [Calculate(h, spec, leaf, path).hash];
      assert hashes[..|path|] == init;
      ChainMore(h, spec, hashes, path);
    }
  }

  /** calculate in full: it gives the hash that a chain from the leaf ends in. */
  lemma CalculateExactly(h: Hasher, spec: ProofSpec, leaf: Bytes, path: seq<InnerOp>, root: Bytes)
    ensures Calculate(h, spec, leaf, path) == Root(root) <==>
            exists hashes :: Chain(h, spec, hashes, path) && hashes[0] == leaf && hashes[|path|] == root
  {
    if Calculate(h, spec, leaf, path) == Root(root) {
      var hashes := ChainOf(h, spec, leaf, path);
    }
    forall hashes | Chain(h, spec, hashes, path) && hashes[0] == leaf && hashes[|path|] == root
      ensures Calculate(h, spec, leaf, path) == Root(root)
    {
      ChainGives(h, spec, hashes, path);
    }
  }

  /** It returns neither a root nor an error exactly when a chain stops at a hash that is too long. */
  lemma {:induction false} OversizeExactly(h: Hasher, spec: ProofSpec, leaf: Bytes, path: seq<InnerOp>)
    ensures Calculate(h, spec, leaf, path) == Oversize <==>
            exists n :: 0 <= n < |path| && StopsAt(h, spec, leaf, path, n)
  {
    if path != [] {
      var last := |path| - 1;
      OversizeExactly(h, spec, leaf, path[..last]);
      forall n | 0 <= n < last
        ensures StopsAt(h, spec, leaf, path, n) <==> StopsAt(h, spec, leaf, path[..last], n)
      {
        assert path[..last][..n] == path[..n];
      }
      if exists n :: 0 <= n < |path| && StopsAt(h, spec, leaf, path, n) {
        var n :| 0 <= n < |path| && StopsAt(h, spec, leaf, path, n);
        if n < last {
          assert StopsAt(h, spec, leaf, path[..last], n);
        }
      }
      if Calculate(h, spec, leaf, path) == Oversize {
        if Calculate(h, spec, leaf, path[..last]) == Oversize {
          var n :| 0 <= n < last && StopsAt(h, spec, leaf, path[..last], n);
          assert StopsAt(h, spec, leaf, path, n);
        } else {
          assert StopsAt(h, spec, leaf, path, last);
        }
      }
    }
  }

  /** The steps below give a root, and the next one a hash that is too long. */
  predicate StopsAt(h: Hasher, spec: ProofSpec, leaf: Bytes, path: seq<InnerOp>, n: nat)
    requires n < |path|
  {
    && Calculate(h, spec, leaf, path[..n]).Root?
    && var next := ApplyInner(h, path[n], Calculate(h, spec, leaf, path[..n]).hash);
       next.Some? && TooLong(spec, next.value)
  }

  predicate CheckPath(path: seq<InnerOp>, spec: ProofSpec)
    requires spec.innerSpec.childSize > 0
  {
    forall i :: 0 <= i < |path| ==> CheckInner(path[i], spec, i + 1)
  }

  /** The loop of CheckAgainstSpec: layers count from 1 at the leaf. */
  method CheckLayers(path: seq<InnerOp>, spec: ProofSpec) returns (ok: bool)
    requires spec.innerSpec.childSize > 0
    ensures ok == CheckPath(path, spec)
  {
    var layerNum := 1;
    for i := 0 to |path|
      invariant layerNum == i + 1
      invariant forall j :: 0 <= j < i ==> CheckInner(path[j], spec, j + 1)
    {
      if !CheckInner(path[i], spec, layerNum) {
        return false;
      }
      layerNum := layerNum + 1;
    }
    return true;
  }

  predicate CheckAgainstSpec(p: ExistenceProof, spec: ProofSpec)
    requires spec.innerSpec.childSize > 0
  {
    && p.leaf.Some? && CheckLeaf(p.leaf.value, spec)
    && (spec.minDepth > 0 ==> |p.path| >= spec.minDepth)
    && (spec.maxDepth > 0 ==> |p.path| <= spec.maxDepth)
    && CheckPath(p.path, spec)
  }

  predicate VerifyExistence(h: Hasher, spec: ProofSpec, p: ExistenceProof, root: Bytes, key: Bytes, value: Bytes)
    requires spec.innerSpec.childSize > 0
  {
    && CheckAgainstSpec(p, spec)
    && key == p.key && value == p.value
    && match ApplyLeaf(h, p.leaf.value, p.key, p.value)
       case None => false
       case Some(leaf) =>
         match Calculate(h, spec, leaf, p.path)
         case Failed => false
         case Oversize => root == []
         case Root(hash) => root == hash
  }

  // ----- padding -----

  datatype Padding = Padding(minPrefix: int, maxPrefix: int, suffix: int)

  function GetPadding(spec: InnerSpec, branch: int): Padding
    requires Binary(spec) && 0 <= branch < 2
  {
    Padding(branch * spec.childSize + spec.minPrefixLength, branch * spec.childSize + spec.maxPrefixLength,
            (1 - branch) * spec.childSize)
  }

  predicate HasPadding(op: InnerOp, p: Padding) {
    p.minPrefix <= |op.prefix| <= p.maxPrefix && |op.suffix| == p.suffix
  }

  function OrderFromPadding(spec: InnerSpec, op: InnerOp): (r: Option<int>)
    requires Binary(spec)
    ensures r.Some? ==> 0 <= r.value < 2 && HasPadding(op, GetPadding(spec, r.value))
    ensures r.None? ==> !HasPadding(op, GetPadding(spec, 0)) && !HasPadding(op, GetPadding(spec, 1))
  {
    if HasPadding(op, GetPadding(spec, 0)) then Some(0)
    else if HasPadding(op, GetPadding(spec, 1)) then Some(1)
    else None
  }

  /** The child left of this one is the empty child. */
  predicate LeftBranchesAreEmpty(spec: InnerSpec, op: InnerOp)
    requires Binary(spec)
  {
    && OrderFromPadding(spec, op) == Some(1)
    && |op.prefix| >= spec.childSize
    && op.prefix[|op.prefix| - spec.childSize..] == spec.emptyChild
  }

  /** The child right of this one is the empty child. */
  predicate RightBranchesAreEmpty(spec: InnerSpec, op: InnerOp)
    requires Binary(spec)
  {
    && OrderFromPadding(spec, op) == Some(0)
    && |op.suffix| == spec.childSize
    && op.suffix == spec.emptyChild
  }

  predicate IsLeftMost(spec: InnerSpec, path: seq<InnerOp>)
    requires Binary(spec)
  {
    forall i :: 0 <= i < |path| ==>
                HasPadding(path[i], GetPadding(spec, 0)) || LeftBranchesAreEmpty(spec, path[i])
  }

  predicate IsRightMost(spec: InnerSpec, path: seq<InnerOp>)
    requires Binary(spec)
  {
    forall i :: 0 <= i < |path| ==>
                HasPadding(path[i], GetPadding(spec, 1)) || RightBranchesAreEmpty(spec, path[i])
  }

  // ----- neighbours -----

  datatype Split = Split(left: seq<InnerOp>, topLeft: InnerOp, right: seq<InnerOp>, topRight: InnerOp)

  predicate SameStep(a: InnerOp, b: InnerOp) {
    a.prefix == b.prefix && a.suffix == b.suffix
  }

  /** The paths below their common part near the root; None when a path runs out, which panics. */
  function SplitPaths(left: seq<InnerOp>, right: seq<InnerOp>): Option<Split> {
    if left == [] || right == [] then None
    else
      var l, r := |left| - 1, |right| - 1;
      if SameStep(left[l], right[r]) then SplitPaths(left[..l], right[..r])
      else Some(Split(left[..l], left[l], right[..r], right[r]))
  }

  /** The stripping loop of IsLeftNeighbor. */
  method StripCommonTail(left: seq<InnerOp>, right: seq<InnerOp>) returns (s: Option<Split>)
    ensures s == SplitPaths(left, right)
  {
    var l, r := left, right;
    while l != [] && r != [] && SameStep(l[|l| - 1], r[|r| - 1])
      invariant SplitPaths(l, r) == SplitPaths(left, right)
    {
      l, r := l[..|l| - 1], r[..|r| - 1];
    }
    if l == [] || r == [] {
      return None;
    }
    return Some(Split(l[..|l| - 1], l[|l| - 1], r[..|r| - 1], r[|r| - 1]));
  }

  datatype Verification = Accepted | Rejected | Panicked

  function IsLeftNeighbor(spec: InnerSpec, left: seq<InnerOp>, right: seq<InnerOp>): Verification
    requires Binary(spec)
  {
    match SplitPaths(left, right)
    case None => Panicked
    case Some(s) =>
      var l, r := OrderFromPadding(spec, s.topLeft), OrderFromPadding(spec, s.topRight);
      if l.None? || r.None? then Panicked
      else if r.value == l.value + 1 && IsRightMost(spec, s.left) && IsLeftMost(spec, s.right) then Accepted
      else Rejected
  }

  function VerifyNonExistence(h: Hasher, spec: ProofSpec, p: NonExistenceProof, root: Bytes, key: Bytes): Verification
    requires Binary(spec.innerSpec)
  {
    if p.left.Some? && !VerifyExistence(h, spec, p.left.value, root, p.left.value.key, p.left.value.value) then
      Rejected
    else if p.right.Some? && !VerifyExistence(h, spec, p.right.value, root, p.right.value.key, p.right.value.value) then
      Rejected
    else if p.left.None? && p.right.None? then Rejected
    else if p.right.Some? && !Less(key, p.right.value.key) then Rejected
    else if p.left.Some? && !Less(p.left.value.key, key) then Rejected
    else if p.left.None? then
      if IsLeftMost(spec.innerSpec, p.right.value.path) then Accepted else Rejected
    else if p.right.None? then
      if IsRightMost(spec.innerSpec, p.left.value.path) then Accepted else Rejected
    else IsLeftNeighbor(spec.innerSpec, p.left.value.path, p.right.value.path)
  }
}
