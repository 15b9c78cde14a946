/**
 The hypotheses of the supply theorems hold together: small hashes without collisions among the
 evaluated queries, a verifier that knows its witnesses, and a run that brings in a note of five
 units and spends it beside a dummy.
 */
module SampleRun {
  import opened Arithmetic
  import opened Field
  import opened Group
  import opened Bytes
  import opened Hashing
  import opened Merkle
  import opened Notes
  import opened NativeDecay
  import opened ActionCircuit
  import opened ActionComplete
  import opened Balance
  import opened Bundles
  import opened LedgerMachine
  import opened Runs
  import opened Supply
  import opened TreeState
  import DecayProperties

  // ---------------------------------------------------------------- the hashes

  /** Commitments are told apart by `rho`, nullifiers by the commitment. */
  function Sponge(s: seq<Base>): Base
  {
    if |s| == COMMIT_ELEMENTS then (if s[8] == 0 then 3 else if s[8] == 1 then 4 else if s[8] == 103 then 5 else 6)
    else if |s| == 3 && s[2] < 100 then (if s[2] == 0 then 1 else 100 + s[2])
    else 0
  }

  /** The part of a node that tells which leaves are below it. */
  function Tag(level: nat, node: nat): nat
  {
    if level == 0 then (if 2 <= node < 10 then node - 2 else 0) else node % 4096
  }

  /** Up to four leaves below level 2; above it the right child is empty. */
  function JoinTags(level: nat, left: nat, right: nat): nat
  {
    if level == 0 then 8 * left + right else if level == 1 then 64 * left + right else left
  }

  function NodeHash(q: NodeQuery): Base
  {
    if q.level >= MERKLE_DEPTH then 0 else 4096 * (q.level + 1) + JoinTags(q.level, Tag(q.level, q.left), Tag(q.level, q.right))
  }

  function Coordinates(p: Point): (Base, Base) { if p < P then (p, 0) else (p - P, 1) }

  function Hashes(): Crypto
  {
    Crypto(Sponge, NodeHash, Coordinates, (s: bytes) => 1, (s: bytes, rho: Base) => 0,
      (s: bytes, rho: Base) => 0, (s: bytes, rho: Base) => 0, (s: bytes) => 0, 1, 1, 1)
  }

  // ---------------------------------------------------------------- trees of at most four leaves

  function EmptyNode(level: nat): nat { if level == 0 then EMPTY_LEAF else 4096 * level }

  predicate NodeShape(level: nat, node: nat)
  {
    if level == 0 then 2 <= node < 10
    else 4096 * level <= node < 4096 * level + (if level == 1 then 64 else 4096)
  }

  lemma TagExact(level: nat, node: nat)
    requires NodeShape(level, node)
    ensures Tag(level, node) == node - EmptyNode(level)
  {
    if level > 0 { DivUnique(node, 4096, level, node - 4096 * level); }
  }

  predicate QueryShape(q: NodeQuery)
  {
    && q.level < MERKLE_DEPTH && NodeShape(q.level, q.left) && NodeShape(q.level, q.right)
    && (q.level > 1 ==> q.right == EmptyNode(q.level))
  }

  /** How many nodes of a level can have a leaf below them. */
  function Width(level: nat): nat { if level == 0 then 4 else if level == 1 then 2 else 1 }

  predicate SmallTree(leaves: seq<Base>) { |leaves| <= 4 && forall cm | cm in leaves :: 2 <= cm < 10 }

  lemma HashHasShape(q: NodeQuery)
    requires QueryShape(q)
    ensures NodeHash(q) == 4096 * (q.level + 1) + JoinTags(q.level, q.left - EmptyNode(q.level), q.right - EmptyNode(q.level))
    ensures NodeShape(q.level + 1, NodeHash(q))
  {
    TagExact(q.level, q.left);
    TagExact(q.level, q.right);
  }

  lemma {:induction false} NodeHasShape(leaves: seq<Base>, level: nat, i: nat)
    requires SmallTree(leaves) && level <= MERKLE_DEPTH
    ensures NodeShape(level, NodeAt(Hashes(), leaves, level, i))
    ensures i >= Width(level) ==> NodeAt(Hashes(), leaves, level, i) == EmptyNode(level)
  {
    if level == 0 {
      assert i < |leaves| ==> leaves[i] in leaves;
    } else {
      NodeHasShape(leaves, level - 1, 2 * i);
      NodeHasShape(leaves, level - 1, 2 * i + 1);
      var q := Children(Hashes(), leaves, level - 1, i);
      HashHasShape(q);
      assert NodeAt(Hashes(), leaves, level, i) == NodeHash(q);
    }
  }

  lemma QueryHasShape(leaves: seq<Base>, level: nat, i: nat)
    requires SmallTree(leaves) && level < MERKLE_DEPTH
    ensures QueryShape(Children(Hashes(), leaves, level, i))
  {
    NodeHasShape(leaves, level, 2 * i);
    NodeHasShape(leaves, level, 2 * i + 1);
  }

  /** Tags of shaped children are below 8, 64 or 4096, or one of them is 0. */
  lemma TagsDiffer(level: nat, a: nat, b: nat, x: nat, y: nat)
    requires if level == 0 then a < 8 && b < 8 else if level == 1 then a < 64 && b < 64 else b == 0
    requires if level == 0 then x < 8 && y < 8 else if level == 1 then x < 64 && y < 64 else y == 0
    requires JoinTags(level, a, b) == JoinTags(level, x, y)
    ensures a == x && b == y
  {}

  lemma NodesDiffer(m: NodeQuery, n: NodeQuery)
    requires QueryShape(m) && QueryShape(n) && NodeHash(m) == NodeHash(n)
    ensures m == n
  {
    HashHasShape(m);
    HashHasShape(n);
    assert m.level == n.level;
    var empty := EmptyNode(m.level);
    TagsDiffer(m.level, m.left - empty, m.right - empty, n.left - empty, n.right - empty);
  }

  lemma TreeIsKnown(leaves: seq<Base>)
    requires SmallTree(leaves)
    ensures TreeKnown(Hashes(), Evaluated(), leaves)
  {
    forall level: nat, i: nat | level < MERKLE_DEPTH ensures Children(Hashes(), leaves, level, i) in Evaluated().nodes {
      QueryHasShape(leaves, level, i);
    }
  }

  /** The path of a leaf asks only what the tree asks. */
  lemma {:induction false} PathIsKnown(c: Crypto, known: Known, leaves: seq<Base>, pos: nat, level: nat)
    requires TreeKnown(c, known, leaves) && level <= MERKLE_DEPTH
    ensures PathKnown(c, known, NodeAt(c, leaves, level, Shr(pos, level)), pos, PathOf(c, leaves, pos), level)
    decreases MERKLE_DEPTH - level
  {
    if level < MERKLE_DEPTH {
      TreePair(c, leaves, pos, level);
      assert Children(c, leaves, level, Shr(pos, level + 1)) in known.nodes;
      PathIsKnown(c, known, leaves, pos, level + 1);
    }
  }

  // ---------------------------------------------------------------- the two actions

  const SECRETS: bytes := [0, 0, 0, 0, 0, 0, 0, 0, 0, 0, 0, 0, 0, 0, 0, 0, 0, 0, 0, 0, 0, 0, 0, 0, 0, 0, 0, 0, 0, 0, 0, 0]
  const VIEWING_KEY: FullViewingKey := FullViewingKey(1, 0, 0, 1, SECRETS)

  function NoteWorth(value: u64, rho: Base): Note { Note(0, 0, value, 0, Normal, 0, 0, 1, 0, 1, 0, rho, 0, 0, 0) }

  /** Action 0 moves five units, action 1 is a dummy. */
  function Amount(i: nat): u64 { if i == 0 then 5 else 0 }

  function SpentNote(i: nat): Note
    requires i < ACTIONS
  {
    NoteWorth(Amount(i), i)
  }

  function CreatedNote(i: nat): Note
    requires i < ACTIONS
  {
    NoteWorth(Amount(i), 103 + i)
  }

  function PrivateInputs(i: nat, path: seq<Base>): Inputs
    requires i < ACTIONS
  {
    Inputs(SpentNote(i), VIEWING_KEY, 0, path, CreatedNote(i), 1, 0)
  }

  lemma HashValues(i: nat)
    requires i < ACTIONS
    ensures Commitment(Hashes(), SpentNote(i)) == 3 + i && Commitment(Hashes(), CreatedNote(i)) == 5 + i
    ensures Nullifier(Hashes(), 0, i, 3 + i) == 103 + i
  {}

  lemma KeyIsValid()
    ensures ValidKey(Hashes(), VIEWING_KEY) && Mul(1, 1) == 1
  {
    assert Mul(1, 1) == Add(1, Mul(0, 1));
  }

  lemma InputsAreHonest(i: nat, path: seq<Base>, anchor: Base, now: u64)
    requires i < ACTIONS && now == 0 && |path| == MERKLE_DEPTH && (i == 0 ==> MerkleRoot(Hashes(), 3, 0, path) == anchor)
    ensures Honest(Hashes(), PrivateInputs(i, path), 0, anchor, now)
    ensures OwnNote(Hashes(), SpentNote(i), VIEWING_KEY, 1) && PlacedNote(Hashes(), CreatedNote(i), 1, 1)
  {
    HashValues(i);
    KeyIsValid();
  }

  /** The elements of a note that is spent or created here. */
  predicate NoteQuery(s: seq<Base>)
  {
    |s| == COMMIT_ELEMENTS && (s[8] <= 1 || 103 <= s[8] <= 104) && s == CommitElements(NoteWorth(if s[8] % 103 == 0 then 5 else 0, s[8]))
  }

  /** Every poseidon query of the two actions: one key, two nullifiers, four notes. */
  predicate Asked(s: seq<Base>) { NoteQuery(s) || s == [1, 0, 0] || s == [0, 0, 3] || s == [0, 1, 4] }

  ghost function Evaluated(): Known
  {
    Known(iset s: seq<Base> | Asked(s), iset q: NodeQuery | QueryShape(q), iset{})
  }

  lemma SpongeIsInjective(s: seq<Base>, t: seq<Base>)
    requires Asked(s) && Asked(t) && |s| == |t| && Sponge(s) == Sponge(t)
    ensures s == t && (|s| == COMMIT_ELEMENTS ==> Sponge(s) != EMPTY_LEAF)
  {
    if |s| == COMMIT_ELEMENTS {
      assert NoteQuery(s) && NoteQuery(t) && s[8] == t[8];
    }
  }

  lemma NoCollisions()
    ensures CollisionFree(Hashes(), Evaluated()) && CoordinatesInjective(Hashes())
  {
    forall s, t | s in Evaluated().poseidon && t in Evaluated().poseidon && |s| == |t| && Sponge(s) == Sponge(t)
      ensures s == t && (|s| == COMMIT_ELEMENTS ==> Sponge(s) != EMPTY_LEAF)
    {
      SpongeIsInjective(s, t);
    }
    forall m, n | m in Evaluated().nodes && n in Evaluated().nodes && NodeHash(m) == NodeHash(n) ensures m == n {
      NodesDiffer(m, n);
    }
  }

  // ---------------------------------------------------------------- the witnesses

  function Public(i: nat, path: seq<Base>, anchor: Base, now: u64): Instance
    requires i < ACTIONS
  {
    PublicOf(Hashes(), PrivateInputs(i, path), 0, anchor, now)
  }

  /** A satisfying witness of honest inputs hashes their notes. */
  lemma FilledElements(c: Crypto, i: Inputs, community: Base, anchor: Base, now: u64, gD: Point, w: Witness)
    requires Honest(c, i, community, anchor, now) && OwnNote(c, i.spent, i.fvk, gD) && CoordinatesInjective(c)
    requires Spend(PublicOf(c, i, community, anchor, now), w) in Satisfying(c) && Fills(c, i, w)
    ensures var inst := PublicOf(c, i, community, anchor, now);
      Elements(w.Old(c, inst)) == CommitElements(i.spent) && Elements(w.New(c, inst)) == CommitElements(i.created)
  {
    var inst := PublicOf(c, i, community, anchor, now);
    CommitExact(w.Old(c, inst));
    CommitExact(w.New(c, inst));
    assert w.gD == gD;
    OldComplete(c, i, inst, w);
    NewComplete(c, i, inst, w);
  }

  /** The queries of honest inputs are the queries of the witness. */
  lemma WitnessIsKnown(c: Crypto, known: Known, i: Inputs, r: Spend)
    requires Fills(c, i, r.x) && Elements(r.x.Old(c, r.inst)) == CommitElements(i.spent)
    requires Elements(r.x.New(c, r.inst)) == CommitElements(i.created)
    requires [c.X(i.fvk.ak), i.fvk.nk, i.fvk.rivk] in known.poseidon && [i.fvk.nk, i.spent.rho, Commitment(c, i.spent)] in known.poseidon
    requires CommitElements(i.spent) in known.poseidon && CommitElements(i.created) in known.poseidon
    requires |i.path| == MERKLE_DEPTH && PathKnown(c, known, Commitment(c, i.spent), i.position, i.path, 0)
    ensures r in Computed(c, known)
  {}

  lemma NoteIsAsked(value: u64, rho: Base)
    requires (rho <= 1 || 103 <= rho <= 104) && value == if rho % 103 == 0 then 5 else 0
    ensures CommitElements(NoteWorth(value, rho)) in Evaluated().poseidon
  {
    assert CommitElements(NoteWorth(value, rho))[8] == rho;
  }

  lemma NullifierIsAsked(i: nat)
    requires i < ACTIONS
    ensures [0, i, 3 + i] in Evaluated().poseidon && [1, 0, 0] in Evaluated().poseidon
  {
    if i == 0 { assert [0, i, 3 + i] == [0, 0, 3]; } else { assert [0, i, 3 + i] == [0, 1, 4]; }
  }

  lemma QueriesAreAsked(i: nat, path: seq<Base>)
    requires i < ACTIONS
    ensures var x, known := PrivateInputs(i, path), Evaluated();
      && CommitElements(x.spent) in known.poseidon && CommitElements(x.created) in known.poseidon
      && [Hashes().X(x.fvk.ak), x.fvk.nk, x.fvk.rivk] in known.poseidon
      && [x.fvk.nk, x.spent.rho, Commitment(Hashes(), x.spent)] in known.poseidon && Commitment(Hashes(), x.spent) == 3 + i
  {
    HashValues(i);
    NullifierIsAsked(i);
    NoteIsAsked(Amount(i), i);
    NoteIsAsked(Amount(i), 103 + i);
  }

  lemma KnownSpend(i: nat, path: seq<Base>, anchor: Base, now: u64, w: Witness)
    requires i < ACTIONS && |path| == MERKLE_DEPTH && Honest(Hashes(), PrivateInputs(i, path), 0, anchor, now)
    requires PathKnown(Hashes(), Evaluated(), 3 + i, 0, path, 0)
    requires Spend(Public(i, path, anchor, now), w) in Satisfying(Hashes()) && Fills(Hashes(), PrivateInputs(i, path), w)
    requires OwnNote(Hashes(), SpentNote(i), VIEWING_KEY, 1) && CoordinatesInjective(Hashes())
    ensures Spend(Public(i, path, anchor, now), w) in Computed(Hashes(), Evaluated())
  {
    FilledElements(Hashes(), PrivateInputs(i, path), 0, anchor, now, 1, w);
    QueriesAreAsked(i, path);
    WitnessIsKnown(Hashes(), Evaluated(), PrivateInputs(i, path), Spend(Public(i, path, anchor, now), w));
  }

  lemma SpendExists(i: nat, path: seq<Base>, anchor: Base, now: u64) returns (w: Witness)
    requires i < ACTIONS && |path| == MERKLE_DEPTH && now == 0 && (i == 0 ==> MerkleRoot(Hashes(), 3, 0, path) == anchor)
    requires PathKnown(Hashes(), Evaluated(), 3 + i, 0, path, 0)
    ensures Spend(Public(i, path, anchor, now), w) in Satisfying(Hashes()) && Fills(Hashes(), PrivateInputs(i, path), w)
    ensures Spend(Public(i, path, anchor, now), w) in Computed(Hashes(), Evaluated())
  {
    InputsAreHonest(i, path, anchor, now);
    NoCollisions();
    w := ActionHasWitness(Hashes(), PrivateInputs(i, path), 0, anchor, now, 1, 1, 1);
    KnownSpend(i, path, anchor, now, w);
  }

  // ---------------------------------------------------------------- the world and its run

  function ProofBytes(): bytes { seq(PROOF_SIZE, _ => 0) }

  function ActionAt(i: nat): Action
    requires i < ACTIONS
  {
    Action(1, 103 + i, 1, 5 + i, EncryptedNote([], 5 + i, [], []))
  }

  function TheBundle(anchor: Base): Bundle { Bundle(anchor, 0, 0, [ActionAt(0), ActionAt(1)], ProofBytes(), [[], []], []) }

  /** The verifier accepts one statement, and binding signatures for the point `[2] R`; the extractor knows why. */
  ghost function WorldOf(h: seq<Spend>): World
    requires |h| == ACTIONS
  {
    World(Verifier((p, m, s) => true, (p, m, s) => p == 2, (insts, proof) => insts == [h[0].inst, h[1].inst]), Hashes(),
          Extractor((insts, proof) => [h[0].x, h[1].x], (p, m, s) => 2), Evaluated())
  }

  lemma VerifierIsSound(h: seq<Spend>)
    requires |h| == ACTIONS && AllHold(Hashes(), h)
    ensures SoundVerifier(WorldOf(h).v, Hashes(), WorldOf(h).e)
  {
    assert Zip([h[0].inst, h[1].inst], [h[0].x, h[1].x]) == h;
    KeyIsValid();
    assert Mul(2, 1) == Add(1, Mul(1, 1));
  }

  lemma WorldIsTrusted(h: seq<Spend>)
    requires NoZeroDivisors() && NoScalarZeroDivisors() && |h| == ACTIONS && AllHold(Hashes(), h)
    ensures Trusted(WorldOf(h))
  {
    NoCollisions();
    VerifierIsSound(h);
    IsTrusted(WorldOf(h));
  }

  lemma IsTrusted(w: World)
    requires Sound(w)
    ensures Trusted(w)
  {}

  lemma NoTimePasses(value: nat, duration: nat)
    requires duration == 0
    ensures DecayWindowed(value, duration) == value
  {
    DecayProperties.WithinYear(value, duration);
    DecayProperties.ZeroRemainder(duration);
    DecayProperties.RoundWhole(value);
  }

  lemma BlindedZero(c: Crypto, rcv: Scalar)
    requires rcv == 1 == c.R
    ensures ValueCommitment(c, 0, rcv) == 1
  {
    KeyIsValid();
    ReduceScalarSmall(0);
  }

  lemma NothingNet(i: Inputs, now: u64)
    requires i.spent.tNote == now && i.created.value == i.spent.value
    ensures NetOf(i, now) == 0
  {
    NoTimePasses(i.spent.value, now - i.spent.tNote);
  }

  lemma PublishedAs(c: Crypto, i: Inputs, community: Base, anchor: Base, now: u64, a: Action)
    requires i.spent.tNote <= now && NetOf(i, now) == 0 && ValueCommitment(c, 0, i.rcv) == a.cvNet
    requires Add(i.fvk.ak, Mul(i.alpha, c.G)) == a.rk && Commitment(c, i.created) == a.cm
    requires Nullifier(c, i.fvk.nk, i.spent.rho, Commitment(c, i.spent)) == a.nullifier
    ensures PublicOf(c, i, community, anchor, now) == InstanceOf(c, community, anchor, a, now)
  {}

  /** What the circuit is asked to prove is what the bundle publishes. */
  lemma PublicIsPublished(i: nat, path: seq<Base>, anchor: Base, now: u64)
    requires i < ACTIONS && now == 0
    ensures Public(i, path, anchor, now) == InstanceOf(Hashes(), 0, anchor, ActionAt(i), now)
  {
    HashValues(i);
    NothingNet(PrivateInputs(i, path), now);
    BlindedZero(Hashes(), 1);
    assert Add(1, Mul(0, 1)) == 1;
    PublishedAs(Hashes(), PrivateInputs(i, path), 0, anchor, now, ActionAt(i));
  }

  /** The spends behind the bundle. */
  ghost predicate Behind(anchor: Base, i: nat, r: Spend)
    requires i < ACTIONS
  {
    && r in Satisfying(Hashes()) && r in Computed(Hashes(), Evaluated())
    && r.inst == InstanceOf(Hashes(), 0, anchor, ActionAt(i), 0) && r.x.value == r.x.newValue == Amount(i)
    && r.x.tNote == 0 && r.x.rcv == 1
  }

  lemma SpendAt(i: nat, leaves: seq<Base>, pos: nat, anchor: Base, now: u64) returns (r: Spend)
    requires i < ACTIONS && leaves == [3 + i] && pos == 0 && now == 0 && (i == 0 ==> anchor == Root(Hashes(), leaves))
    ensures Behind(anchor, i, r)
  {
    var path := PathOf(Hashes(), leaves, pos);
    TreeIsKnown(leaves);
    PathFolds(Hashes(), leaves, pos, 0);
    PathIsKnown(Hashes(), Evaluated(), leaves, pos, 0);
    var w := SpendExists(i, path, anchor, now);
    PublicIsPublished(i, path, anchor, now);
    r := Spend(Public(i, path, anchor, now), w);
  }

  ghost function Backers(anchor: Base, i: nat): iset<Spend>
    requires i < ACTIONS
  {
    iset r: Spend | Behind(anchor, i, r)
  }

  ghost predicate BothBehind(anchor: Base, h: seq<Spend>)
  {
    |h| == ACTIONS && h[0] in Backers(anchor, 0) && h[1] in Backers(anchor, 1)
  }

  lemma PairUp(h: seq<Spend>)
    requires |h| == ACTIONS
    ensures Zip([h[0].inst, h[1].inst], [h[0].x, h[1].x]) == h
  {}

  lemma BundleStates(anchor: Base, h: seq<Spend>)
    requires BothBehind(anchor, h)
    ensures Instances(Hashes(), TheBundle(anchor)) == [h[0].inst, h[1].inst]
  {
    BackerStates(anchor, 0, h[0]);
    BackerStates(anchor, 1, h[1]);
    PairOf(Instances(Hashes(), TheBundle(anchor)), h[0].inst, h[1].inst);
  }

  lemma PairOf(insts: seq<Instance>, first: Instance, second: Instance)
    requires |insts| == 2 && insts[0] == first && insts[1] == second
    ensures insts == [first, second]
  {}

  lemma BackerStates(anchor: Base, i: nat, r: Spend)
    requires i < ACTIONS && r in Backers(anchor, i)
    ensures Instances(Hashes(), TheBundle(anchor))[i] == r.inst
  {
    BundleAction(anchor, i);
    BackerFacts(anchor, i, r);
    StatedAt(Hashes(), TheBundle(anchor), i);
  }

  lemma BundleAction(anchor: Base, i: nat)
    requires i < ACTIONS
    ensures TheBundle(anchor).actions[i] == ActionAt(i)
  {
    if i > 0 { assert i == 1; }
  }

  lemma StatedAt(c: Crypto, b: Bundle, i: nat)
    requires i < |b.actions|
    ensures Instances(c, b)[i] == InstanceOf(c, b.community, b.anchor, b.actions[i], b.now)
  {}

  lemma SpendsAre(anchor: Base, h: seq<Spend>)
    requires BothBehind(anchor, h)
    ensures SpendsOf(Hashes(), WorldOf(h).e, TheBundle(anchor)) == h
  {
    BundleStates(anchor, h);
    PairUp(h);
  }

  lemma BundlePoints(anchor: Base)
    ensures SumPoints(Cvs(TheBundle(anchor).actions)) == 2 && HasCoordinates(TheBundle(anchor))
  {
    var cvs := Cvs(TheBundle(anchor).actions);
    assert cvs == [1, 1] && cvs[..1] == [1] && cvs[..1][..0] == [];
    assert SumPoints(cvs[..1]) == Add(SumPoints(cvs[..1][..0]), cvs[..1][0]);
  }

  lemma BundleVerifies(anchor: Base, h: seq<Spend>)
    requires BothBehind(anchor, h)
    ensures HasCoordinates(TheBundle(anchor)) && VerifyBundleCrypto(WorldOf(h).v, Hashes(), TheBundle(anchor), []).Ok?
  {
    BundleStates(anchor, h);
    BundlePoints(anchor);
  }

  /** Both actions net 0, so the commitments give away no relation. */
  predicate NetsNothing(r: Spend) { r.x.Net() == 0 && r.x.rcv == 1 }

  lemma NetIsZero(c: Crypto, r: Spend)
    requires NoZeroDivisors() && r in Satisfying(c) && r.inst.now == r.x.tNote && r.x.value == r.x.newValue
    ensures r.x.Net() == 0
  {
    ActionSound(c, r.inst, r.x);
    NoTimePasses(r.x.value, r.inst.now - r.x.tNote);
  }

  lemma BackerFacts(anchor: Base, i: nat, r: Spend)
    requires i < ACTIONS && r in Backers(anchor, i)
    ensures r in Satisfying(Hashes()) && r.inst.now == r.x.tNote && r.x.value == r.x.newValue == Amount(i) && r.x.rcv == 1
    ensures r in Computed(Hashes(), Evaluated()) && r.inst == InstanceOf(Hashes(), 0, anchor, ActionAt(i), 0)
  {}

  lemma SpendNetsNothing(anchor: Base, i: nat, r: Spend)
    requires NoZeroDivisors() && i < ACTIONS && r in Backers(anchor, i)
    ensures NetsNothing(r) && r in Computed(Hashes(), Evaluated())
  {
    BackerFacts(anchor, i, r);
    NetIsZero(Hashes(), r);
  }

  lemma TwoZeros(c: Crypto, nets: seq<int>, rcvs: seq<Scalar>)
    requires nets == [0, 0] && rcvs == [1, 1]
    ensures NoBundleRelation(c, nets, rcvs, 2)
  {
    assert SumInts(nets) == SumInts(nets[..1]) + 0 && SumInts(nets[..1]) == SumInts(nets[..1][..0]) + 0;
    assert SumScalars(rcvs) == ReduceScalar(SumScalars(rcvs[..1]) + 1) && SumScalars(rcvs[..1]) == ReduceScalar(SumScalars(rcvs[..1][..0]) + 1);
    ReduceScalarSmall(0);
    ReduceScalarSmall(1);
    ReduceScalarSmall(2);
  }

  lemma KnownIf(c: Crypto, known: Known, e: Extractor, b: Bundle, sighash: bytes, h: seq<Spend>)
    requires SpendsOf(c, e, b) == h && |h| == ACTIONS && BindingKeyOf(e, b, sighash) == 2 && NetsNothing(h[0]) && NetsNothing(h[1])
    requires h[0] in Computed(c, known) && h[1] in Computed(c, known)
    ensures BundleKnown(c, known, e, b, sighash)
  {
    TwoZeros(c, Nets(h), Rcvs(h));
  }

  lemma BundleIsKnown(anchor: Base, h: seq<Spend>)
    requires NoZeroDivisors() && BothBehind(anchor, h)
    ensures BundleKnown(Hashes(), Evaluated(), WorldOf(h).e, TheBundle(anchor), [])
  {
    SpendsAre(anchor, h);
    SpendNetsNothing(anchor, 0, h[0]);
    SpendNetsNothing(anchor, 1, h[1]);
    KnownIf(Hashes(), Evaluated(), WorldOf(h).e, TheBundle(anchor), [], h);
  }

  // ---------------------------------------------------------------- the run

  lemma FirstEvent(w: World, cm: Base)
    ensures Accepts(w, InitialState(w.c), Added(cm))
    ensures Run(w, [Added(cm)]) == Trace(LedgerState([cm], [Root(w.c, []), Root(w.c, [cm])], {}), [])
  {
    var events := [Added(cm)];
    assert events[..0] == [];
    FirstLeaf(w.c, cm);
    assert Run(w, events) == Runs.Step(w, Run(w, []), Added(cm));
  }

  lemma FirstLeaf(c: Crypto, cm: Base)
    ensures Sealed(c, InitialState(c), [cm], []) == LedgerState([cm], [Root(c, []), Root(c, [cm])], {})
  {
    assert [] + [cm] == [cm] && SetOf([]) == {};
  }

  lemma SecondEvent(w: World, cm: Base, e: Event)
    requires Accepts(w, Run(w, [Added(cm)]).s, e)
    ensures Run(w, [Added(cm), e]) ==
      Trace(Sealed(w.c, Run(w, [Added(cm)]).s, NewLeaves(e), NewNullifiers(e)), Run(w, [Added(cm)]).spends + NewSpends(w, e))
  {
    assert [Added(cm), e][..1] == [Added(cm)];
  }

  lemma IsAccepted(w: World, s: LedgerState, b: Bundle, sighash: bytes)
    requires HasCoordinates(b) && VerifyBundleCrypto(w.v, w.c, b, sighash).Ok? && Distinct(Nullifiers(b.actions))
    requires |s.leaves| == 1 && |s.roots| == 2 && s.nullifiers == {} && b.anchor in s.roots
    ensures Accepts(w, s, Received(b, sighash))
  {
    VerdictOk(w.v, w.c, s, b, sighash);
  }

  lemma RunIsKnown(w: World, cm: Base, e: Event)
    requires e.Received? && Accepts(w, Run(w, [Added(cm)]).s, e) && BundleKnown(w.c, w.known, w.e, e.bundle, e.sighash)
    requires TreeKnown(w.c, w.known, []) && TreeKnown(w.c, w.known, [cm]) && TreeKnown(w.c, w.known, [cm] + NewLeaves(e))
    ensures RunKnown(w, [Added(cm), e])
  {
    FirstEvent(w, cm);
    SecondEvent(w, cm, e);
    assert [Added(cm), e][..1] == [Added(cm)] && [Added(cm)][..0] == [];
    assert RunKnown(w, []) && RunKnown(w, [Added(cm)]);
  }

  lemma BroughtByFirst(w: World, cm: Base, e: Event)
    requires e.Received?
    ensures BroughtIn(w, [Added(cm), e]) == LeafValue(w, cm)
  {
    FirstEvent(w, cm);
    assert [Added(cm), e][..1] == [Added(cm)] && [Added(cm)][..0] == [];
    assert BroughtIn(w, [Added(cm)]) == BroughtIn(w, []) + LeafValue(w, cm);
  }

  lemma FiveUnits(w: World, leaf: Base)
    requires w.c == Hashes() && w.known == Evaluated() && leaf == 3
    ensures LeafValue(w, leaf) == 5
  {
    var s := CommitElements(SpentNote(0));
    HashValues(0);
    NoteIsAsked(5, 0);
    PackExact(5, 0, 0, 0);
    NoCollisions();
    OpeningIsUnique(w, s, leaf);
  }

  lemma TreesAreKnown(w: World, leaf: Base, b: Bundle)
    requires w.c == Hashes() && w.known == Evaluated() && leaf == 3 && Commitments(b.actions) == [5, 6]
    ensures TreeKnown(w.c, w.known, []) && TreeKnown(w.c, w.known, [leaf]) && TreeKnown(w.c, w.known, [leaf] + Commitments(b.actions))
  {
    TreeIsKnown([]);
    TreeIsKnown([leaf]);
    TreeIsKnown([leaf] + Commitments(b.actions));
  }

  lemma BundleLists(anchor: Base)
    ensures Nullifiers(TheBundle(anchor).actions) == [103, 104] && Commitments(TheBundle(anchor).actions) == [5, 6]
  {}

  lemma FirstAccepted(w: World, leaf: Base, anchor: Base, h: seq<Spend>)
    requires BothBehind(anchor, h) && w == WorldOf(h) && anchor == Root(w.c, [leaf])
    ensures Accepts(w, Run(w, [Added(leaf)]).s, Received(TheBundle(anchor), []))
  {
    BundleVerifies(anchor, h);
    BundleLists(anchor);
    AcceptedNext(w, leaf, TheBundle(anchor), []);
  }

  lemma AcceptedNext(w: World, leaf: Base, b: Bundle, sighash: bytes)
    requires HasCoordinates(b) && VerifyBundleCrypto(w.v, w.c, b, sighash).Ok? && Nullifiers(b.actions) == [103, 104]
    requires b.anchor == Root(w.c, [leaf])
    ensures Accepts(w, Run(w, [Added(leaf)]).s, Received(b, sighash))
  {
    FirstEvent(w, leaf);
    IsAccepted(w, Run(w, [Added(leaf)]).s, b, sighash);
  }

  lemma RunEnds(w: World, leaf: Base, b: Bundle, sighash: bytes)
    requires Accepts(w, Run(w, [Added(leaf)]).s, Received(b, sighash)) && Nullifiers(b.actions) == [103, 104]
    ensures var t := Run(w, [Added(leaf), Received(b, sighash)]);
      t.spends == SpendsOf(w.c, w.e, b) && t.s.nullifiers == {103, 104}
  {
    FirstEvent(w, leaf);
    SecondEvent(w, leaf, Received(b, sighash));
  }

  lemma SpentFive(h: seq<Spend>)
    requires |h| == ACTIONS && h[0].x.value == 5 && h[1].x.value == 0
    ensures Sum(Spent, h) == 5
  {
    assert h[..1][..0] == [];
    assert Sum(Spent, h[..1]) == Sum(Spent, h[..1][..0]) + 5;
  }

  lemma SpendsFive(w: World, leaf: Base, anchor: Base, h: seq<Spend>)
    requires BothBehind(anchor, h) && w == WorldOf(h) && anchor == Root(w.c, [leaf])
    ensures var t := Run(w, [Added(leaf), Received(TheBundle(anchor), [])]);
      |t.spends| == 2 && Sum(Spent, t.spends) == 5 && t.s.nullifiers == {103, 104}
  {
    FirstAccepted(w, leaf, anchor, h);
    BundleLists(anchor);
    RunEnds(w, leaf, TheBundle(anchor), []);
    SpendsAre(anchor, h);
    BackerFacts(anchor, 0, h[0]);
    BackerFacts(anchor, 1, h[1]);
    SpentFive(h);
  }

  lemma KnowsItsRun(w: World, leaf: Base, anchor: Base, h: seq<Spend>)
    requires NoZeroDivisors() && BothBehind(anchor, h) && w == WorldOf(h) && leaf == 3 && anchor == Root(w.c, [leaf])
    ensures RunKnown(w, [Added(leaf), Received(TheBundle(anchor), [])])
  {
    FirstAccepted(w, leaf, anchor, h);
    BundleLists(anchor);
    BundleIsKnown(anchor, h);
    TreesAreKnown(w, leaf, TheBundle(anchor));
    RunIsKnown(w, leaf, Received(TheBundle(anchor), []));
  }

  lemma BackersHold(anchor: Base, h: seq<Spend>)
    requires BothBehind(anchor, h)
    ensures AllHold(Hashes(), h)
  {
    BackerFacts(anchor, 0, h[0]);
    BackerFacts(anchor, 1, h[1]);
    TwoHold(Hashes(), h);
  }

  lemma TwoHold(c: Crypto, h: seq<Spend>)
    requires |h| == ACTIONS && h[0] in Satisfying(c) && h[1] in Satisfying(c)
    ensures AllHold(c, h)
  {
    forall r | r in h ensures r in Satisfying(c) {
      var i :| 0 <= i < |h| && h[i] == r;
      assert i == 0 || i == 1;
    }
  }

  /**
   The hypotheses of the supply theorems are met by a run that spends value: five units come in,
   an accepted bundle spends them beside a dummy, and its nullifiers enter the set.
   */
  lemma SupplyIsInhabited() returns (w: World, events: seq<Event>)
    requires NoZeroDivisors() && NoScalarZeroDivisors()
    ensures Trusted(w) && RunKnown(w, events) && BroughtIn(w, events) == 5
    ensures var t := Run(w, events); |t.spends| == 2 && Sum(Spent, t.spends) == 5 && t.s.nullifiers == {103, 104}
  {
    var leaf: Base, other: Base, pos: nat, now: u64 := 3, 4, 0, 0;
    var anchor := Root(Hashes(), [leaf]);
    var r := SpendAt(0, [leaf], pos, anchor, now);
    var q := SpendAt(1, [other], pos, anchor, now);
    var h := [r, q];
    w, events := WorldOf(h), [Added(leaf), Received(TheBundle(anchor), [])];
    BackersHold(anchor, h);
    WorldIsTrusted(h);
    KnowsItsRun(w, leaf, anchor, h);
    SpendsFive(w, leaf, anchor, h);
    BroughtByFirst(w, leaf, events[1]);
    FiveUnits(w, leaf);
  }
}
