/**
 The note commitment tree: a Merkle tree of depth 32 over a list of leaves, padded with empty
 leaves. A path from the tree and the fold in the circuit meet in the same root, and only there.
 */
module Merkle {
  import opened Arithmetic
  import opened Group
  import opened Hashing

  const MERKLE_DEPTH: nat := 32
  const MAX_LEAVES: nat := 0x1_0000_0000

  /** The padded list: empty leaves behind the last note. */
  function Leaf(leaves: seq<Base>, i: nat): Base
  {
    if i < |leaves| then leaves[i] else EMPTY_LEAF
  }

  /** Node `index` of level `level`, counted from the leaves. */
  function NodeAt(c: Crypto, leaves: seq<Base>, level: nat, index: nat): Base
    decreases level, |leaves|, 1
  {
    if level == 0 then Leaf(leaves, index) else c.merkleCrh(Children(c, leaves, level - 1, index))
  }

  /** The query that makes node `index` of level `level + 1`. */
  function Children(c: Crypto, leaves: seq<Base>, level: nat, index: nat): NodeQuery
    decreases level + 1, |leaves|, 0
  {
    NodeQuery(level, NodeAt(c, leaves, level, 2 * index), NodeAt(c, leaves, level, 2 * index + 1))
  }

  function Root(c: Crypto, leaves: seq<Base>): Base { NodeAt(c, leaves, MERKLE_DEPTH, 0) }

  /** One level of a path: the bit of the position says on which side the sibling is. */
  function Pair(level: nat, node: Base, sibling: Base, bit: nat): NodeQuery
  {
    if bit == 0 then NodeQuery(level, node, sibling) else NodeQuery(level, sibling, node)
  }

  /** `native::merkle_root` from level `level` on: fold the siblings into the node. */
  function Climb(c: Crypto, node: Base, pos: nat, path: seq<Base>, level: nat): Base
    requires level <= |path|
    decreases |path| - level
  {
    if level == |path| then node
    else Climb(c, c.merkleCrh(Pair(level, node, path[level], Bit(pos, level))), pos, path, level + 1)
  }

  function MerkleRoot(c: Crypto, leaf: Base, pos: nat, path: seq<Base>): Base { Climb(c, leaf, pos, path, 0) }

  /** The other child of the same parent. */
  function Sibling(index: nat): nat { if index % 2 == 0 then index + 1 else index - 1 }

  /** The path `witness` returns for a position. */
  function PathOf(c: Crypto, leaves: seq<Base>, pos: nat): (path: seq<Base>)
    ensures |path| == MERKLE_DEPTH
  {
    seq(MERKLE_DEPTH, (level: nat) => NodeAt(c, leaves, level, Sibling(Shr(pos, level))))
  }

  /** The query above a node of the tree pairs that node with its sibling. */
  lemma TreePair(c: Crypto, leaves: seq<Base>, pos: nat, level: nat)
    ensures var i := Shr(pos, level);
      Pair(level, NodeAt(c, leaves, level, i), NodeAt(c, leaves, level, Sibling(i)), Bit(pos, level))
        == Children(c, leaves, level, Shr(pos, level + 1))
  {
    ShrStep(pos, level);
  }

  /** The path of a position folds to the root. */
  lemma {:induction false} PathFolds(c: Crypto, leaves: seq<Base>, pos: nat, level: nat)
    requires pos < MAX_LEAVES && level <= MERKLE_DEPTH
    ensures Climb(c, NodeAt(c, leaves, level, Shr(pos, level)), pos, PathOf(c, leaves, pos), level) == Root(c, leaves)
    decreases MERKLE_DEPTH - level
  {
    if level < MERKLE_DEPTH {
      TreePair(c, leaves, pos, level);
      PathFolds(c, leaves, pos, level + 1);
    } else {
      PositionFits(pos);
    }
  }

  lemma PositionFits(pos: nat)
    requires pos < MAX_LEAVES
    ensures Shr(pos, MERKLE_DEPTH) == 0
  {
    ShrIsDiv(pos, MERKLE_DEPTH);
    Pow2Values();
    Pow2Add(MERKLE_DEPTH, 8);
    DivSmall(pos, Pow2(MERKLE_DEPTH));
  }

  /** The queries of a fold. */
  ghost predicate PathKnown(c: Crypto, known: Known, node: Base, pos: nat, path: seq<Base>, level: nat)
    requires level <= |path|
    decreases |path| - level
  {
    level < |path| ==>
      var query := Pair(level, node, path[level], Bit(pos, level));
      query in known.nodes && PathKnown(c, known, c.merkleCrh(query), pos, path, level + 1)
  }

  /** The queries of the tree. */
  ghost predicate TreeKnown(c: Crypto, known: Known, leaves: seq<Base>)
  {
    forall level: nat, i: nat | level < MERKLE_DEPTH :: Children(c, leaves, level, i) in known.nodes
  }

  /** What folds to the root is, from every level on, the node and the path of the tree. */
  lemma {:induction false} FoldIsTree(c: Crypto, known: Known, leaves: seq<Base>, node: Base, pos: nat, path: seq<Base>, level: nat)
    requires CollisionFree(c, known) && TreeKnown(c, known, leaves) && |path| == MERKLE_DEPTH && level <= MERKLE_DEPTH
    requires pos < MAX_LEAVES && PathKnown(c, known, node, pos, path, level)
    requires Climb(c, node, pos, path, level) == Root(c, leaves)
    ensures node == NodeAt(c, leaves, level, Shr(pos, level))
    ensures forall l | level <= l < MERKLE_DEPTH :: path[l] == PathOf(c, leaves, pos)[l]
    decreases MERKLE_DEPTH - level
  {
    if level < MERKLE_DEPTH {
      var query := Pair(level, node, path[level], Bit(pos, level));
      FoldIsTree(c, known, leaves, c.merkleCrh(query), pos, path, level + 1);
      TreePair(c, leaves, pos, level);
      assert Children(c, leaves, level, Shr(pos, level + 1)) in known.nodes;
    } else {
      PositionFits(pos);
    }
  }

  /**
   Membership is exact: a leaf and a path fold to the root of the tree exactly when they are the
   padded leaf and the sibling path at that position.
   */
  lemma MembershipExact(c: Crypto, known: Known, leaves: seq<Base>, leaf: Base, pos: nat, path: seq<Base>)
    requires CollisionFree(c, known) && TreeKnown(c, known, leaves) && |path| == MERKLE_DEPTH
    requires pos < MAX_LEAVES && PathKnown(c, known, leaf, pos, path, 0)
    ensures MerkleRoot(c, leaf, pos, path) == Root(c, leaves) <==> leaf == Leaf(leaves, pos) && path == PathOf(c, leaves, pos)
  {
    PathFolds(c, leaves, pos, 0);
    if MerkleRoot(c, leaf, pos, path) == Root(c, leaves) {
      FoldIsTree(c, known, leaves, leaf, pos, path, 0);
    }
  }

  /** An anchor names one tree: lists with the same root have the same padded leaves. */
  lemma {:induction false} RootDeterminesLeaves(c: Crypto, known: Known, a: seq<Base>, b: seq<Base>, level: nat, pos: nat)
    requires CollisionFree(c, known) && TreeKnown(c, known, a) && TreeKnown(c, known, b)
    requires Root(c, a) == Root(c, b) && pos < MAX_LEAVES && level <= MERKLE_DEPTH
    ensures NodeAt(c, a, level, Shr(pos, level)) == NodeAt(c, b, level, Shr(pos, level))
    decreases MERKLE_DEPTH - level
  {
    if level < MERKLE_DEPTH {
      RootDeterminesLeaves(c, known, a, b, level + 1, pos);
      TreePair(c, a, pos, level);
      TreePair(c, b, pos, level);
      assert Children(c, a, level, Shr(pos, level + 1)) in known.nodes;
      assert Children(c, b, level, Shr(pos, level + 1)) in known.nodes;
    } else {
      PositionFits(pos);
    }
  }

  // ---------------------------------------------------------------- empty subtrees

  /** The root of an empty subtree of height `level`, by definition. */
  function EmptyRoot(c: Crypto, level: nat): Base
  {
    if level == 0 then EMPTY_LEAF else c.merkleCrh(NodeQuery(level - 1, EmptyRoot(c, level - 1), EmptyRoot(c, level - 1)))
  }

  /** `empty_roots`: the table, one hash per level. */
  method EmptyRoots(c: Crypto) returns (roots: seq<Base>)
    ensures |roots| == MERKLE_DEPTH + 1
    ensures forall l | 0 <= l <= MERKLE_DEPTH :: roots[l] == EmptyRoot(c, l)
  {
    roots := seq(MERKLE_DEPTH + 1, _ => EMPTY_LEAF);
    for level := 0 to MERKLE_DEPTH
      invariant |roots| == MERKLE_DEPTH + 1
      invariant forall l | 0 <= l <= level :: roots[l] == EmptyRoot(c, l)
    {
      roots := roots[level + 1 := c.merkleCrh(NodeQuery(level, roots[level], roots[level]))];
    }
  }

  /** A subtree that starts behind the last leaf has the root the table gives it. */
  lemma {:induction false} EmptySubtree(c: Crypto, leaves: seq<Base>, level: nat, index: nat)
    requires |leaves| <= index * Pow2(level)
    ensures NodeAt(c, leaves, level, index) == EmptyRoot(c, level)
    decreases level
  {
    if level > 0 {
      HalfStart(index, Pow2(level - 1));
      EmptySubtree(c, leaves, level - 1, 2 * index);
      EmptySubtree(c, leaves, level - 1, 2 * index + 1);
    }
  }

  lemma HalfStart(index: nat, p: nat)
    ensures 2 * index * p == index * (2 * p) && (2 * index + 1) * p >= index * (2 * p)
  {
    MulAssoc(index, 2, p);
    assert (2 * index + 1) * p == 2 * index * p + p;
  }
}
