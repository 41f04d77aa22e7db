/**
 The tree the proofs speak about: an IAVL tree with explicit node layout, its root hash, and the
 path of inner operations from a leaf to the root.
 */
module IavlTree {
  import opened Basics
  import opened Sequences
  import opened Varint
  import opened Ics23Types
  import opened Ics23Ops

  datatype Tree =
    | Leaf(version: nat, key: Bytes, value: Bytes)
    | Node(height: nat, size: nat, version: nat, left: Tree, right: Tree)

  const HASH_LEN: nat := 32

  function LengthPrefixed(b: Bytes): Bytes {
    Encode(|b|) + b
  }

  function Header(height: nat, size: nat, version: nat): Bytes {
    PutVarint(height) + PutVarint(size) + PutVarint(version)
  }

  function TreeHeader(t: Tree): Bytes {
    if t.Leaf? then Header(0, 1, t.version) else Header(t.height, t.size, t.version)
  }

  function Preimage(h: Hasher, t: Tree): Bytes
    decreases t, 0
  {
    if t.Leaf? then TreeHeader(t) + LengthPrefixed(t.key) + LengthPrefixed(h.sha256(t.value))
    else TreeHeader(t) + LengthPrefixed(TreeHash(h, t.left)) + LengthPrefixed(TreeHash(h, t.right))
  }

  function TreeHash(h: Hasher, t: Tree): Bytes
    decreases t, 1
  {
    h.sha256(Preimage(h, t))
  }

  /** Numbers fit 64 bits and only leaves have height 0. */
  predicate Shaped(t: Tree) {
    && t.version < TWO63
    && (t.Node? ==> 1 <= t.height < TWO63 && t.size < TWO63 && Shaped(t.left) && Shaped(t.right))
  }

  /** The step from the left child to its parent, and from the right child. */
  function LeftStep(h: Hasher, t: Tree): InnerOp
    requires t.Node?
  {
    InnerOp(SHA256, TreeHeader(t) + [32], LengthPrefixed(TreeHash(h, t.right)))
  }

  function RightStep(h: Hasher, t: Tree): InnerOp
    requires t.Node?
  {
    InnerOp(SHA256, TreeHeader(t) + LengthPrefixed(TreeHash(h, t.left)) + [32], [])
  }

  /** The path climbs from a leaf of t, with this key and value, to the root of t. */
  predicate Climbs(h: Hasher, t: Tree, path: seq<InnerOp>, key: Bytes, value: Bytes)
    decreases t
  {
    if path == [] then t.Leaf? && t.key == key && t.value == value
    else
      var below, top := path[..|path| - 1], path[|path| - 1];
      t.Node? && ((top == LeftStep(h, t) && Climbs(h, t.left, below, key, value))
                  || (top == RightStep(h, t) && Climbs(h, t.right, below, key, value)))
  }

  predicate Contains(t: Tree, key: Bytes, value: Bytes) {
    if t.Leaf? then t.key == key && t.value == value
    else Contains(t.left, key, value) || Contains(t.right, key, value)
  }

  // ----- hashing -----

  /** Everything that is hashed to build the tree. */
  ghost function TreeHashed(h: Hasher, t: Tree): set<Bytes> {
    {Preimage(h, t)} + if t.Leaf? then {t.value} else TreeHashed(h, t.left) + TreeHashed(h, t.right)
  }

  /** Everything that is hashed to recompute the root from a proof. */
  ghost function ProofHashed(h: Hasher, leaf: LeafOp, key: Bytes, value: Bytes, path: seq<InnerOp>): set<Bytes> {
    var start := leaf.prefix + LengthPrefixed(key) + LengthPrefixed(h.sha256(value));
    {value, start} + PathHashed(h, h.sha256(start), path)
  }

  ghost function PathHashed(h: Hasher, start: Bytes, path: seq<InnerOp>): set<Bytes> {
    if path == [] then {}
    else
      var below := path[..|path| - 1];
      PathHashed(h, start, below) + {path[|path| - 1].prefix + Climb(h, start, below) + path[|path| - 1].suffix}
  }

  /** The hash at the top of a path of SHA-256 steps. */
  function Climb(h: Hasher, start: Bytes, path: seq<InnerOp>): Bytes {
    if path == [] then start
    else h.sha256(path[|path| - 1].prefix + Climb(h, start, path[..|path| - 1]) + path[|path| - 1].suffix)
  }

  /** Nothing collides among the strings that were hashed. */
  ghost predicate CollisionFree(h: Hasher, hashed: set<Bytes>) {
    forall x, y :: x in hashed && y in hashed && h.sha256(x) == h.sha256(y) ==> x == y
  }

  ghost predicate Digests32(h: Hasher) {
    forall x :: |h.sha256(x)| == HASH_LEN
  }

  // ----- reading the layout -----

  lemma EncodeSmall(v: nat)
    requires v < 128
    ensures Encode(v) == [v]
  {
  }

  /** The header is cut off in one way only. */
  lemma {:induction false} ReadHeaderExtends(s: Bytes, t: Bytes, n: nat)
    requires n >= 1 && ReadHeader(s, n).Some?
    ensures ReadHeader(s + t, n) == ReadHeader(s, n)
  {
    VarintExtends(s, t);
    if n == 1 {
      assert ReadHeader(s, 1) == ReadVarint(s);
      assert ReadHeader(s + t, 1) == ReadVarint(s + t);
    } else {
      var rest := s[ReadVarint(s).value.length..];
      ReadHeaderExtends(rest, t, n - 1);
      ReadHeaderNext(s, rest, n);
      ReadHeaderNext(s + t, rest + t, n);
    }
  }

  lemma ReadHeaderNext(s: Bytes, rest: Bytes, n: nat)
    requires n > 1 && ReadVarint(s).Some? && rest == s[ReadVarint(s).value.length..]
    ensures ReadHeader(s, n) ==
            if ReadVarint(s).value.value < 0 || ReadHeader(rest, n - 1).None? then None
            else Some(Signed(ReadVarint(s).value.value,
                             ReadVarint(s).value.length + ReadHeader(rest, n - 1).value.length))
  {
  }

  lemma VarintExtends(s: Bytes, t: Bytes)
    requires ReadVarint(s).Some?
    ensures ReadVarint(s + t) == ReadVarint(s)
    ensures (s + t)[ReadVarint(s).value.length..] == s[ReadVarint(s).value.length..] + t
  {
    ScanExtends(s, t, 0);
  }

  lemma ReadHeaderStep(v: nat, rest: Bytes, n: nat)
    requires v < TWO63 && n >= 1 && (n > 1 ==> ReadHeader(rest, n - 1).Some?)
    ensures ReadHeader(PutVarint(v) + rest, n) ==
            Some(Signed(v, |PutVarint(v)| + if n == 1 then 0 else ReadHeader(rest, n - 1).value.length))
  {
    ReadPutVarint(v, rest);
    assert (PutVarint(v) + rest)[|PutVarint(v)|..] == rest;
  }

  lemma ReadHeaderOf(height: nat, size: nat, version: nat, rest: Bytes)
    requires height < TWO63 && size < TWO63 && version < TWO63
    ensures ReadHeader(Header(height, size, version) + rest, 3) ==
            Some(Signed(height, |Header(height, size, version)|))
  {
    Regroup(PutVarint(height), PutVarint(size), PutVarint(version), rest);
    ReadHeaderStep(version, rest, 1);
    ReadHeaderStep(size, PutVarint(version) + rest, 2);
    ReadHeaderStep(height, PutVarint(size) + (PutVarint(version) + rest), 3);
  }

  /** A prefix that passes the IAVL check and starts a node's preimage holds exactly its header. */
  lemma PrefixHeader(h: Hasher, t: Tree, prefix: Bytes, rest: Bytes, hash: Int32, layer: int)
    requires Shaped(t) && Preimage(h, t) == prefix + rest
    requires IavlPrefix(prefix, hash, layer)
    ensures var n := ReadHeader(prefix, 3).value.length;
            n == |TreeHeader(t)| <= |prefix| && prefix[..n] == TreeHeader(t)
  {
    var whole := Preimage(h, t);
    var n := ReadHeader(prefix, 3).value.length;
    ReadHeaderExtends(prefix, rest, 3);
    HeaderOfTree(h, t);
    assert prefix[..n] == whole[..n] == TreeHeader(t);
  }

  lemma HeaderOfTree(h: Hasher, t: Tree)
    requires Shaped(t)
    ensures ReadHeader(Preimage(h, t), 3).Some? && ReadHeader(Preimage(h, t), 3).value.length == |TreeHeader(t)|
    ensures TreeHeader(t) <= Preimage(h, t)
  {
    var whole := Preimage(h, t);
    var tail := whole[|TreeHeader(t)|..];
    assert whole == TreeHeader(t) + tail;
    if t.Leaf? {
      ReadHeaderOf(0, 1, t.version, tail);
    } else {
      ReadHeaderOf(t.height, t.size, t.version, tail);
    }
  }
}
