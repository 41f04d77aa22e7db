/** The messages of the ICS 23 proof format and the specification of the IAVL format. */
module Ics23Types {
  import opened Basics

  type Int32 = x: int | -0x8000_0000 <= x < 0x8000_0000

  const NO_HASH: Int32 := 0
  const SHA256: Int32 := 1
  const SHA512: Int32 := 2
  const RIPEMD160: Int32 := 4
  const BITCOIN: Int32 := 5
  const SHA512_256: Int32 := 6

  const NO_PREFIX: Int32 := 0
  const VAR_PROTO: Int32 := 1
  const FIXED32_LITTLE: Int32 := 4
  const REQUIRE_32_BYTES: Int32 := 7
  const REQUIRE_64_BYTES: Int32 := 8

  datatype LeafOp = LeafOp(hash: Int32, prehashKey: Int32, prehashValue: Int32, length: Int32, prefix: Bytes)

  datatype InnerOp = InnerOp(hash: Int32, prefix: Bytes, suffix: Bytes)

  datatype ExistenceProof = ExistenceProof(key: Bytes, value: Bytes, leaf: Option<LeafOp>, path: seq<InnerOp>)

  datatype NonExistenceProof =
    NonExistenceProof(key: Bytes, left: Option<ExistenceProof>, right: Option<ExistenceProof>)

  datatype InnerSpec = InnerSpec(childOrder: seq<int>, childSize: int, minPrefixLength: int,
                                 maxPrefixLength: int, emptyChild: Bytes, hash: Int32)

  datatype ProofSpec = ProofSpec(leafSpec: LeafOp, innerSpec: InnerSpec, maxDepth: int, minDepth: int)

  const IavlSpec := ProofSpec(
    LeafOp(SHA256, NO_HASH, SHA256, VAR_PROTO, [0]),
    InnerSpec([0, 1], 33, 4, 12, [], SHA256),
    0, 0)

  /** The specifications this package ships all have two children in order. */
  predicate Binary(spec: InnerSpec) {
    spec.childOrder == [0, 1] && spec.childSize > 0
  }
}
