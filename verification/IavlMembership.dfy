/** Soundness of existence proofs for IAVL trees. */
module IavlMembership {
  import opened Basics
  import opened Sequences
  import opened Varint
  import opened Ics23Types
  import opened Ics23Ops
  import opened Ics23Proof
  import opened IavlTree

  function LeafStart(h: Hasher, leaf: LeafOp, key: Bytes, value: Bytes): Bytes {
    leaf.prefix + LengthPrefixed(key) + LengthPrefixed(h.sha256(value))
  }

  /** With 32-byte digests the calculation never fails and never gets oversize. */
  lemma {:induction false} CalculateClimbs(h: Hasher, start: Bytes, path: seq<InnerOp>)
    requires Digests32(h) && |start| == HASH_LEN
    requires forall i :: 0 <= i < |path| ==> path[i].hash == SHA256
    ensures Calculate(h, IavlSpec, start, path) == Root(Climb(h, start, path))
    ensures |Climb(h, start, path)| == HASH_LEN
  {
    if path != [] {
      CalculateClimbs(h, start, path[..|path| - 1]);
    }
  }

  /** What acceptance of an existence proof means in terms of hashing. */
  lemma VerifyMeans(h: Hasher, p: ExistenceProof, root: Bytes, key: Bytes, value: Bytes)
    requires Digests32(h)
    ensures VerifyExistence(h, IavlSpec, p, root, key, value) <==>
            && p.leaf.Some? && CheckLeaf(p.leaf.value, IavlSpec) && CheckPath(p.path, IavlSpec)
            && key == p.key && value == p.value && key != [] && value != []
            && root == Climb(h, h.sha256(LeafStart(h, p.leaf.value, key, value)), p.path)
  {
    if p.leaf.Some? && CheckLeaf(p.leaf.value, IavlSpec) && CheckPath(p.path, IavlSpec) {
      var start := h.sha256(LeafStart(h, p.leaf.value, p.key, p.value));
      forall i | 0 <= i < |p.path| ensures p.path[i].hash == SHA256 {
        assert CheckInner(p.path[i], IavlSpec, i + 1);
      }
      CalculateClimbs(h, start, p.path);
    }
  }

  /** Acceptance of any proof against any root, in full: the proof is for this key and value, which are not empty; its
      leaf and every step have the IAVL format; and hashing the leaf and climbing the steps gives the root. */
  lemma VerifyExactly(h: Hasher, p: ExistenceProof, root: Bytes, key: Bytes, value: Bytes)
    requires Digests32(h)
    ensures VerifyExistence(h, IavlSpec, p, root, key, value) <==>
            && key == p.key && value == p.value && key != [] && value != []
            && p.leaf.Some? && IavlLeaf(p.leaf.value)
            && (forall i :: 0 <= i < |p.path| ==> IavlInner(p.path[i], i + 1))
            && root == Climb(h, h.sha256(LeafStart(h, p.leaf.value, key, value)), p.path)
  {
    VerifyMeans(h, p, root, key, value);
    if p.leaf.Some? {
      CheckLeafExactly(p.leaf.value);
    }
    forall i | 0 <= i < |p.path| ensures CheckInner(p.path[i], IavlSpec, i + 1) <==> IavlInner(p.path[i], i + 1) {
      CheckInnerExactly(p.path[i], i + 1);
    }
  }

  // ----- parsing preimages -----

  lemma FirstByte(n: nat)
    ensures PutVarint(n)[0] == 0 <==> n == 0
  {
  }

  /** A leaf's preimage starts with 0, an inner node's does not. */
  lemma DomainSeparation(h: Hasher, t: Tree)
    requires Shaped(t)
    ensures |Preimage(h, t)| > 0 && (Preimage(h, t)[0] == 0 <==> t.Leaf?)
  {
    FirstByte(if t.Leaf? then 0 else t.height);
  }

  lemma Cut(a: Bytes, b: Bytes, c: Bytes, d: Bytes)
    requires a + b == c + d && |a| == |c|
    ensures a == c && b == d
  {
    assert a == (a + b)[..|a|] == (c + d)[..|c|] == c;
    assert b == (a + b)[|a|..] == (c + d)[|c|..] == d;
  }

  /** A checked inner operation never hashes a leaf. */
  lemma InnerIsNode(h: Hasher, t: Tree, op: InnerOp, rest: Bytes, layer: int)
    requires Shaped(t) && CheckInner(op, IavlSpec, layer) && op.prefix + rest == Preimage(h, t)
    ensures t.Node?
  {
    DomainSeparation(h, t);
    assert Preimage(h, t)[0] == op.prefix[0];
    assert op.prefix[0] != 0 by {
      assert op.prefix[..1] == [op.prefix[0]];
    }
  }

  lemma NodePreimage(h: Hasher, t: Tree)
    requires t.Node? && Digests32(h)
    ensures Preimage(h, t) == TreeHeader(t) + ([32] + TreeHash(h, t.left)) + ([32] + TreeHash(h, t.right))
    ensures LengthPrefixed(TreeHash(h, t.left)) == [32] + TreeHash(h, t.left)
    ensures LengthPrefixed(TreeHash(h, t.right)) == [32] + TreeHash(h, t.right)
  {
    EncodeSmall(32);
  }

  /** The prefix is the node's header and one or 34 bytes more. */
  lemma InnerCut(h: Hasher, t: Tree, op: InnerOp, rest: Bytes, layer: int) returns (more: Bytes)
    requires Shaped(t) && layer >= 1 && CheckInner(op, IavlSpec, layer) && op.prefix + rest == Preimage(h, t)
    ensures op.prefix == TreeHeader(t) + more && (|more| == 1 || |more| == 34)
  {
    PrefixHeader(h, t, op.prefix, rest, op.hash, layer);
    more := op.prefix[|TreeHeader(t)|..];
  }

  /** A checked inner operation whose preimage is that of a node is one of the node's two steps. */
  lemma InnerStep(h: Hasher, t: Tree, op: InnerOp, child: Bytes, layer: int)
    requires Shaped(t) && Digests32(h) && |child| == HASH_LEN && layer >= 1
    requires CheckInner(op, IavlSpec, layer) && op.prefix + child + op.suffix == Preimage(h, t)
    ensures t.Node?
    ensures (op == LeftStep(h, t) && child == TreeHash(h, t.left))
         || (op == RightStep(h, t) && child == TreeHash(h, t.right))
  {
    Associate(op.prefix, child, op.suffix);
    InnerIsNode(h, t, op, child + op.suffix, layer);
    var more := InnerCut(h, t, op, child + op.suffix, layer);
    StepOf(h, t, op, child, more);
  }

  lemma StepOf(h: Hasher, t: Tree, op: InnerOp, child: Bytes, more: Bytes)
    requires t.Node? && Digests32(h) && |child| == HASH_LEN && op.hash == SHA256
    requires op.prefix == TreeHeader(t) + more && (|more| == 1 || |more| == 34)
    requires op.prefix + child + op.suffix == Preimage(h, t)
    ensures (op == LeftStep(h, t) && child == TreeHash(h, t.left))
         || (op == RightStep(h, t) && child == TreeHash(h, t.right))
  {
    NodePreimage(h, t);
    var l, r := TreeHash(h, t.left), TreeHash(h, t.right);
    NodeBody(more, child, op.suffix, l, r, TreeHeader(t));
    if more == [32] + l + [32] {
      assert TreeHeader(t) + more == TreeHeader(t) + ([32] + l) + [32];
    }
  }

  /** The part of a node's preimage after the header, cut at the child. */
  lemma NodeBody(more: Bytes, child: Bytes, suffix: Bytes, l: Bytes, r: Bytes, head: Bytes)
    requires |l| == |r| == |child| == HASH_LEN && (|more| == 1 || |more| == 34)
    requires head + more + child + suffix == head + ([32] + l) + ([32] + r)
    ensures (more == [32] && child == l && suffix == [32] + r)
         || (more == [32] + l + [32] && child == r && suffix == [])
  {
    assert head + (more + (child + suffix)) == head + more + child + suffix;
    assert head + ([32] + l + ([32] + r)) == head + ([32] + l) + ([32] + r);
    Cut(head, more + (child + suffix), head, [32] + l + ([32] + r));
    if |more| == 1 {
      assert [32] + l + ([32] + r) == [32] + (l + ([32] + r));
      Cut(more, child + suffix, [32], l + ([32] + r));
      Cut(child, suffix, l, [32] + r);
    } else {
      assert [32] + l + ([32] + r) == ([32] + l + [32]) + (r + []);
      Cut(more, child + suffix, [32] + l + [32], r + []);
      Cut(child, suffix, r, []);
    }
  }

  lemma LengthPrefixedCut(a: Bytes, x: Bytes, b: Bytes, y: Bytes)
    requires LengthPrefixed(a) + x == LengthPrefixed(b) + y
    ensures a == b && x == y
  {
    assert LengthPrefixed(a) + x == Encode(|a|) + (a + x);
    assert LengthPrefixed(b) + y == Encode(|b|) + (b + y);
    EncodeCut(|a|, a + x, |b|, b + y);
    Cut(a, x, b, y);
  }

  /** A checked leaf operation whose preimage is that of a node has the header of a leaf for its prefix. */
  lemma LeafPrefix(h: Hasher, t: Tree, op: LeafOp, rest: Bytes)
    requires Shaped(t) && Digests32(h) && CheckLeaf(op, IavlSpec)
    requires op.prefix + rest == Preimage(h, t)
    ensures t.Leaf? && op.prefix == TreeHeader(t)
  {
    DomainSeparation(h, t);
    assert op.prefix[0] == IavlSpec.leafSpec.prefix[0] == 0;
    PrefixHeader(h, t, op.prefix, rest, op.hash, 0);
    assert op.prefix == op.prefix[..|op.prefix|];
  }

  /** What follows the header tells the key and the hash of the value. */
  lemma LeafBody(h: Hasher, t: Tree, key: Bytes, hash: Bytes)
    requires t.Leaf? && Digests32(h) && |hash| == 32
    requires LengthPrefixed(key) + LengthPrefixed(hash) == LengthPrefixed(t.key) + LengthPrefixed(h.sha256(t.value))
    ensures t.key == key && h.sha256(t.value) == hash
  {
    LengthPrefixedCut(key, LengthPrefixed(hash), t.key, LengthPrefixed(h.sha256(t.value)));
    EncodeSmall(32);
    Cut([32], hash, [32], h.sha256(t.value));
  }

  /** A checked leaf operation whose preimage is that of a node: the node is that leaf. */
  lemma LeafStep(h: Hasher, t: Tree, op: LeafOp, key: Bytes, value: Bytes)
    requires Shaped(t) && Digests32(h) && CheckLeaf(op, IavlSpec)
    requires LeafStart(h, op, key, value) == Preimage(h, t)
    ensures t.Leaf? && t.key == key && h.sha256(t.value) == h.sha256(value)
  {
    var k, v := LengthPrefixed(key), LengthPrefixed(h.sha256(value));
    Associate(op.prefix, k, v);
    LeafPrefix(h, t, op, k + v);
    var tk, tv := LengthPrefixed(t.key), LengthPrefixed(h.sha256(t.value));
    Associate(TreeHeader(t), tk, tv);
    Cut(op.prefix, k + v, TreeHeader(t), tk + tv);
    LeafBody(h, t, key, h.sha256(value));
  }

  // ----- soundness -----

  lemma CheckPathFront(path: seq<InnerOp>)
    requires path != [] && CheckPath(path, IavlSpec)
    ensures CheckPath(path[..|path| - 1], IavlSpec)
    ensures CheckInner(path[|path| - 1], IavlSpec, |path|)
  {
    var front := path[..|path| - 1];
    forall i | 0 <= i < |front| ensures CheckInner(front[i], IavlSpec, i + 1) {
      assert front[i] == path[i];
    }
  }

  lemma PathDigest(h: Hasher, start: Bytes, path: seq<InnerOp>)
    requires Digests32(h) && |start| == HASH_LEN
    ensures |Climb(h, start, path)| == HASH_LEN
  {
  }

  /** What the last step of the path hashes is what the root of the tree hashes. */
  lemma LastStep(h: Hasher, t: Tree, leaf: LeafOp, key: Bytes, value: Bytes, path: seq<InnerOp>)
    requires path != [] && CollisionFree(h, TreeHashed(h, t) + ProofHashed(h, leaf, key, value, path))
    requires Climb(h, h.sha256(LeafStart(h, leaf, key, value)), path) == TreeHash(h, t)
    ensures var below, top := path[..|path| - 1], path[|path| - 1];
            && top.prefix + Climb(h, h.sha256(LeafStart(h, leaf, key, value)), below) + top.suffix == Preimage(h, t)
            && ProofHashed(h, leaf, key, value, below) <= ProofHashed(h, leaf, key, value, path)
  {
  }

  lemma FewerCollide(h: Hasher, all: set<Bytes>, some: set<Bytes>)
    requires CollisionFree(h, all) && some <= all
    ensures CollisionFree(h, some)
  {
  }

  /** A checked proof that hashes to the root of a tree climbs from one of its leaves. */
  lemma {:induction false} ProofClimbs(h: Hasher, t: Tree, leaf: LeafOp, key: Bytes, value: Bytes, path: seq<InnerOp>)
    requires Shaped(t) && Digests32(h)
    requires CheckLeaf(leaf, IavlSpec) && CheckPath(path, IavlSpec)
    requires CollisionFree(h, TreeHashed(h, t) + ProofHashed(h, leaf, key, value, path))
    requires Climb(h, h.sha256(LeafStart(h, leaf, key, value)), path) == TreeHash(h, t)
    ensures Climbs(h, t, path, key, value)
  {
    if path == [] {
      assert LeafStart(h, leaf, key, value) == Preimage(h, t);
      LeafStep(h, t, leaf, key, value);
    } else {
      var below, top := path[..|path| - 1], path[|path| - 1];
      var child := Climb(h, h.sha256(LeafStart(h, leaf, key, value)), below);
      CheckPathFront(path);
      PathDigest(h, h.sha256(LeafStart(h, leaf, key, value)), below);
      LastStep(h, t, leaf, key, value, path);
      InnerStep(h, t, top, child, |path|);
      var all := TreeHashed(h, t) + ProofHashed(h, leaf, key, value, path);
      if top == LeftStep(h, t) && child == TreeHash(h, t.left) {
        FewerCollide(h, all, TreeHashed(h, t.left) + ProofHashed(h, leaf, key, value, below));
        ProofClimbs(h, t.left, leaf, key, value, below);
      } else {
        FewerCollide(h, all, TreeHashed(h, t.right) + ProofHashed(h, leaf, key, value, below));
        ProofClimbs(h, t.right, leaf, key, value, below);
      }
    }
  }

  lemma {:induction false} ClimbsContains(h: Hasher, t: Tree, path: seq<InnerOp>, key: Bytes, value: Bytes)
    requires Climbs(h, t, path, key, value)
    ensures Contains(t, key, value)
  {
    if path != [] {
      var below := path[..|path| - 1];
      if Climbs(h, t.left, below, key, value) {
        ClimbsContains(h, t.left, below, key, value);
      } else {
        ClimbsContains(h, t.right, below, key, value);
      }
    }
  }

  ghost predicate NoCollisions(h: Hasher, t: Tree, p: ExistenceProof) {
    p.leaf.Some? ==> CollisionFree(h, TreeHashed(h, t) + ProofHashed(h, p.leaf.value, p.key, p.value, p.path))
  }

  /** Membership soundness: an accepted proof proves a leaf of the tree. */
  lemma MembershipSound(h: Hasher, t: Tree, p: ExistenceProof, key: Bytes, value: Bytes)
    requires Shaped(t) && Digests32(h) && NoCollisions(h, t, p)
    requires VerifyExistence(h, IavlSpec, p, TreeHash(h, t), key, value)
    ensures Contains(t, key, value) && Climbs(h, t, p.path, key, value)
  {
    VerifyMeans(h, p, TreeHash(h, t), key, value);
    ProofClimbs(h, t, p.leaf.value, key, value, p.path);
    ClimbsContains(h, t, p.path, key, value);
  }
}
