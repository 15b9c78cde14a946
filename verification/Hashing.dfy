/**
 The hash functions and fixed points, as symbols. They are arbitrary functions: nothing is assumed
 of them except, where a theorem says so, that the queries somebody evaluated do not collide.
 A hash into a smaller set has collisions, so injectivity on all inputs would be a contradiction.
 */
module Hashing {
  import opened Field
  import opened Group
  import opened Bytes

  datatype Crypto = Crypto(
    /** Poseidon of a fixed number of elements; the length separates the domains */
    poseidon: seq<Base> -> Base,
    /** Sinsemilla `MerkleCRH(level, left, right)` */
    merkleCrh: NodeQuery -> Base,
    /** affine coordinates; the identity is (0, 0) inside the circuit */
    coordinates: Point -> (Base, Base),
    hashToCurve: bytes -> Point,
    psi: (bytes, Base) -> Base,
    rcm: (bytes, Base) -> Base,
    esk: (bytes, Base) -> Scalar,
    memoHash: bytes -> Base,
    /** the bases `V` and `R` of the value commitment and `G` of the spend authorisation */
    V: Point, R: Point, G: Point)
  {
    function X(p: Point): Base { coordinates(p).0 }
    function Y(p: Point): Base { coordinates(p).1 }

    function Hash3(a: Base, b: Base, d: Base): Base { poseidon([a, b, d]) }
  }

  datatype NodeQuery = NodeQuery(level: nat, left: Base, right: Base)

  /** Hash queries that somebody evaluated. */
  datatype Known = Known(poseidon: iset<seq<Base>>, nodes: iset<NodeQuery>, memos: iset<bytes>)

  /** The value of an empty leaf. */
  const EMPTY_LEAF: Base := 2

  const COMMIT_ELEMENTS: nat := 12

  /** Nobody evaluated two colliding queries, or a note commitment that reads as an empty leaf. */
  ghost predicate CollisionFree(c: Crypto, known: Known)
  {
    && (forall s, t | s in known.poseidon && t in known.poseidon && |s| == |t| && c.poseidon(s) == c.poseidon(t) :: s == t)
    && (forall m, n | m in known.nodes && n in known.nodes && c.merkleCrh(m) == c.merkleCrh(n) :: m == n)
    && (forall s, t | s in known.memos && t in known.memos && c.memoHash(s) == c.memoHash(t) :: s == t)
    && (forall s | s in known.poseidon && |s| == COMMIT_ELEMENTS :: c.poseidon(s) != EMPTY_LEAF)
  }

  /** A point is determined by its coordinates. */
  ghost predicate CoordinatesInjective(c: Crypto)
  {
    forall p: Point, q: Point | c.coordinates(p) == c.coordinates(q) :: p == q
  }

  lemma SameTriple(c: Crypto, known: Known, a: Base, b: Base, d: Base, a': Base, b': Base, d': Base)
    requires CollisionFree(c, known) && [a, b, d] in known.poseidon && [a', b', d'] in known.poseidon
    requires c.Hash3(a, b, d) == c.Hash3(a', b', d')
    ensures a == a' && b == b' && d == d'
  {
    var s, t := [a, b, d], [a', b', d'];
    assert s[0] == t[0] && s[1] == t[1] && s[2] == t[2];
  }

  lemma SamePoint(c: Crypto, p: Point, q: Point)
    requires CoordinatesInjective(c) && c.X(p) == c.X(q) && c.Y(p) == c.Y(q)
    ensures p == q
  {}
}
