/** Runs of the ledger: what holds after any sequence of added notes and received bundles. */
module Runs {
  import opened Field
  import opened Group
  import opened Bytes
  import opened Hashing
  import opened Merkle
  import opened Notes
  import opened TreeState
  import opened ActionCircuit
  import opened Balance
  import opened Bundles
  import opened LedgerMachine

  datatype Event = Added(cm: Base) | Received(bundle: Bundle, sighash: bytes)

  /** The algorithms, what they were fed with, and the queries all parties together evaluated. */
  datatype World = World(v: Verifier, c: Crypto, e: Extractor, known: Known)

  /** What the cryptography is trusted for. */
  ghost predicate Sound(w: World)
  {
    && NoZeroDivisors() && NoScalarZeroDivisors() && CoordinatesInjective(w.c)
    && CollisionFree(w.c, w.known) && SoundVerifier(w.v, w.c, w.e)
  }

  ghost function SoundWorlds(): iset<World> { iset w: World | Sound(w) }

  ghost predicate Trusted(w: World) { w in SoundWorlds() }

  predicate Accepts(w: World, s: LedgerState, e: Event)
  {
    match e
    case Added(_) => |s.leaves| < MAX_LEAVES
    case Received(b, sighash) => HasCoordinates(b) && Verdict(w.v, w.c, s, b, sighash).Ok?
  }

  function NewLeaves(e: Event): seq<Base>
  {
    match e case Added(cm) => [cm] case Received(b, _) => Commitments(b.actions)
  }

  function NewNullifiers(e: Event): seq<Base>
  {
    match e case Added(_) => [] case Received(b, _) => Nullifiers(b.actions)
  }

  function NewSpends(w: World, e: Event): seq<Spend>
  {
    match e case Added(_) => [] case Received(b, _) => SpendsOf(w.c, w.e, b)
  }

  /** The ledger, and beside it the spends of all accepted bundles. */
  datatype Trace = Trace(s: LedgerState, spends: seq<Spend>)

  function Step(w: World, t: Trace, e: Event): Trace
  {
    Trace(Next(w, t.s, e), if Accepts(w, t.s, e) then t.spends + NewSpends(w, e) else t.spends)
  }

  function Next(w: World, s: LedgerState, e: Event): LedgerState
  {
    if Accepts(w, s, e) then Sealed(w.c, s, NewLeaves(e), NewNullifiers(e)) else s
  }

  function Run(w: World, events: seq<Event>): Trace
  {
    if events == [] then Trace(InitialState(w.c), []) else Step(w, Run(w, events[..|events| - 1]), events[|events| - 1])
  }

  /** Every tree and every accepted bundle of the run was computed from known queries. */
  ghost predicate RunKnown(w: World, events: seq<Event>)
  {
    && TreeKnown(w.c, w.known, Run(w, events).s.leaves)
    && (events != [] ==>
      var before, e := events[..|events| - 1], events[|events| - 1];
      && RunKnown(w, before)
      && (e.Received? && Accepts(w, Run(w, before).s, e) ==> BundleKnown(w.c, w.known, w.e, e.bundle, e.sighash)))
  }

  // ---------------------------------------------------------------- the invariant

  ghost predicate IsAnchor(w: World, leaves: seq<Base>, root: Base)
  {
    exists n: nat :: n <= |leaves| && root == Root(w.c, leaves[..n]) && TreeKnown(w.c, w.known, leaves[..n])
  }

  /** A spend of value took the leaf at its position. */
  predicate TookLeaf(c: Crypto, leaves: seq<Base>, r: Spend)
  {
    r.x.value > 0 ==> r.x.leafPos < |leaves| && leaves[r.x.leafPos] == r.x.CmOld(c, r.inst)
  }

  function Nfs(h: seq<Spend>): (s: seq<Base>)
    ensures |s| == |h|
  {
    seq(|h|, i requires 0 <= i < |h| => h[i].inst.nf)
  }

  ghost predicate Proven(w: World, h: seq<Spend>)
  {
    AllHold(w.c, h) && forall r | r in h :: r in Computed(w.c, w.known)
  }

  ghost predicate TookLeaves(c: Crypto, leaves: seq<Base>, h: seq<Spend>)
  {
    forall r | r in h :: TookLeaf(c, leaves, r)
  }

  ghost predicate Invariant(w: World, t: Trace)
  {
    && |t.s.leaves| <= MAX_LEAVES
    && (forall r | r in t.s.roots :: IsAnchor(w, t.s.leaves, r))
    && Proven(w, t.spends) && TookLeaves(w.c, t.s.leaves, t.spends)
    && Distinct(Nfs(t.spends)) && SetOf(Nfs(t.spends)) == t.s.nullifiers
  }

  /** A sealed state has only roots of its own earlier trees. */
  lemma AnchorStays(w: World, leaves: seq<Base>, cms: seq<Base>, root: Base)
    requires IsAnchor(w, leaves, root)
    ensures IsAnchor(w, leaves + cms, root)
  {
    var n: nat :| n <= |leaves| && root == Root(w.c, leaves[..n]) && TreeKnown(w.c, w.known, leaves[..n]);
    assert (leaves + cms)[..n] == leaves[..n];
  }

  lemma RootIsAnchor(w: World, leaves: seq<Base>)
    requires TreeKnown(w.c, w.known, leaves)
    ensures IsAnchor(w, leaves, Root(w.c, leaves))
  {
    assert leaves[..|leaves|] == leaves;
  }

  /** A spend of value under a root of the ledger takes a leaf of the ledger. */
  lemma SpendTakesLeaf(w: World, leaves: seq<Base>, r: Spend)
    requires Trusted(w) && |leaves| <= MAX_LEAVES && IsAnchor(w, leaves, r.inst.anchor)
    requires r in Satisfying(w.c) && r in Computed(w.c, w.known)
    ensures TookLeaf(w.c, leaves, r)
  {
    var inst, x := r.inst, r.x;
    ActionSound(w.c, inst, x);
    if x.value > 0 {
      var n: nat :| n <= |leaves| && inst.anchor == Root(w.c, leaves[..n]) && TreeKnown(w.c, w.known, leaves[..n]);
      MembershipExact(w.c, w.known, leaves[..n], x.CmOld(w.c, inst), x.leafPos, x.path);
      assert Elements(x.Old(w.c, inst)) in w.known.poseidon;
    }
  }

  /** What the ledger checked about an accepted bundle. */
  lemma AcceptedByLedger(w: World, s: LedgerState, b: Bundle, sighash: bytes)
    requires Accepts(w, s, Received(b, sighash))
    ensures |b.actions| == ACTIONS && |s.leaves| + ACTIONS <= MAX_LEAVES && b.anchor in s.roots
    ensures Distinct(Nullifiers(b.actions))
    ensures forall i | 0 <= i < ACTIONS :: Nullifiers(b.actions)[i] !in s.nullifiers
    ensures VerifyBundleCrypto(w.v, w.c, b, sighash).Ok?
  {
    VerdictOk(w.v, w.c, s, b, sighash);
  }

  /** The spends of a bundle carry its public inputs. */
  lemma SpendInputs(w: World, b: Bundle)
    requires |SpendsOf(w.c, w.e, b)| == |b.actions|
    ensures forall i | 0 <= i < |b.actions| :: SpendsOf(w.c, w.e, b)[i].inst == Instances(w.c, b)[i]
    ensures Nfs(SpendsOf(w.c, w.e, b)) == Nullifiers(b.actions)
    ensures forall r | r in SpendsOf(w.c, w.e, b) :: r.inst.anchor == b.anchor
  {}

  /** What its proof and signatures show. */
  lemma AcceptedByProof(w: World, s: LedgerState, b: Bundle, sighash: bytes)
    requires Trusted(w) && Accepts(w, s, Received(b, sighash)) && BundleKnown(w.c, w.known, w.e, b, sighash)
    ensures Proven(w, SpendsOf(w.c, w.e, b)) && |b.actions| == ACTIONS == |SpendsOf(w.c, w.e, b)|
    ensures Sum(Decayed, SpendsOf(w.c, w.e, b)) == Sum(Created, SpendsOf(w.c, w.e, b))
  {
    AcceptedByLedger(w, s, b, sighash);
    AcceptedConserves(w.v, w.c, w.known, w.e, b, sighash);
  }

  /** Every spend of value in an accepted bundle takes a leaf. */
  lemma AcceptedTakesLeaves(w: World, t: Trace, b: Bundle, sighash: bytes)
    requires Trusted(w) && Invariant(w, t)
    requires Accepts(w, t.s, Received(b, sighash)) && BundleKnown(w.c, w.known, w.e, b, sighash)
    ensures TookLeaves(w.c, t.s.leaves, SpendsOf(w.c, w.e, b))
  {
    AcceptedByLedger(w, t.s, b, sighash);
    AcceptedByProof(w, t.s, b, sighash);
    SpendInputs(w, b);
    forall r | r in SpendsOf(w.c, w.e, b) ensures TookLeaf(w.c, t.s.leaves, r) {
      SpendTakesLeaf(w, t.s.leaves, r);
    }
  }

  lemma DistinctAppend(a: seq<Base>, b: seq<Base>)
    requires Distinct(a) && Distinct(b) && forall i | 0 <= i < |b| :: b[i] !in SetOf(a)
    ensures Distinct(a + b) && SetOf(a + b) == SetOf(a) + SetOf(b)
  {}

  lemma AnchorsKept(w: World, s: LedgerState, cms: seq<Base>)
    requires (forall r | r in s.roots :: IsAnchor(w, s.leaves, r)) && TreeKnown(w.c, w.known, s.leaves + cms)
    ensures forall r | r in s.roots + [Root(w.c, s.leaves + cms)] :: IsAnchor(w, s.leaves + cms, r)
  {
    RootIsAnchor(w, s.leaves + cms);
    forall r | r in s.roots ensures IsAnchor(w, s.leaves + cms, r) {
      AnchorStays(w, s.leaves, cms, r);
    }
  }

  lemma TakenKept(c: Crypto, leaves: seq<Base>, cms: seq<Base>, g: seq<Spend>, h: seq<Spend>)
    requires TookLeaves(c, leaves, g) && TookLeaves(c, leaves, h)
    ensures TookLeaves(c, leaves + cms, g + h)
  {
    forall r | r in g + h ensures TookLeaf(c, leaves + cms, r) {
      assert TookLeaf(c, leaves, r);
    }
  }

  /** Sealing a transaction keeps the invariant. */
  lemma InvariantSealed(w: World, t: Trace, cms: seq<Base>, h: seq<Spend>)
    requires Invariant(w, t) && |t.s.leaves| + |cms| <= MAX_LEAVES && TreeKnown(w.c, w.known, t.s.leaves + cms)
    requires Proven(w, h) && TookLeaves(w.c, t.s.leaves, h)
    requires Distinct(Nfs(h)) && forall i | 0 <= i < |h| :: Nfs(h)[i] !in t.s.nullifiers
    ensures Invariant(w, Trace(Sealed(w.c, t.s, cms, Nfs(h)), t.spends + h))
  {
    AnchorsKept(w, t.s, cms);
    TakenKept(w.c, t.s.leaves, cms, t.spends, h);
    DistinctAppend(Nfs(t.spends), Nfs(h));
    assert Nfs(t.spends + h) == Nfs(t.spends) + Nfs(h);
  }

  lemma InvariantReceived(w: World, t: Trace, b: Bundle, sighash: bytes)
    requires Trusted(w) && Invariant(w, t)
    requires Accepts(w, t.s, Received(b, sighash)) && BundleKnown(w.c, w.known, w.e, b, sighash)
    requires TreeKnown(w.c, w.known, t.s.leaves + Commitments(b.actions))
    ensures Invariant(w, Step(w, t, Received(b, sighash)))
  {
    AcceptedByLedger(w, t.s, b, sighash);
    AcceptedByProof(w, t.s, b, sighash);
    AcceptedTakesLeaves(w, t, b, sighash);
    SpendInputs(w, b);
    InvariantSealed(w, t, Commitments(b.actions), SpendsOf(w.c, w.e, b));
  }

  lemma InvariantAdded(w: World, t: Trace, cm: Base)
    requires Invariant(w, t) && |t.s.leaves| < MAX_LEAVES && TreeKnown(w.c, w.known, t.s.leaves + [cm])
    ensures Invariant(w, Step(w, t, Added(cm)))
  {
    InvariantSealed(w, t, [cm], []);
    assert Nfs([]) == [];
  }

  lemma InvariantInitial(w: World, s: LedgerState)
    requires s == InitialState(w.c) && TreeKnown(w.c, w.known, s.leaves)
    ensures Invariant(w, Trace(s, []))
  {
    RootIsAnchor(w, s.leaves);
    assert Nfs([]) == [] && SetOf([]) == {};
  }

  /** Every run keeps the invariant. */
  lemma {:induction false} RunInvariant(w: World, events: seq<Event>)
    requires Trusted(w) && RunKnown(w, events)
    ensures Invariant(w, Run(w, events))
  {
    if events == [] {
      InvariantInitial(w, InitialState(w.c));
    } else {
      var before, e := events[..|events| - 1], events[|events| - 1];
      RunInvariant(w, before);
      var t := Run(w, before);
      if Accepts(w, t.s, e) {
        match e
        case Added(cm) => InvariantAdded(w, t, cm);
        case Received(b, sighash) => InvariantReceived(w, t, b, sighash);
      }
    }
  }

  // ---------------------------------------------------------------- no double spend, and sizes

  /** How many events of a kind the run accepted. */
  function Count(w: World, events: seq<Event>, bundles: bool): nat
  {
    if events == [] then 0
    else
      var before, e := events[..|events| - 1], events[|events| - 1];
      Count(w, before, bundles) + if e.Received? == bundles && Accepts(w, Run(w, before).s, e) then 1 else 0
  }

  lemma {:induction false} DistinctCount(s: seq<Base>)
    requires Distinct(s)
    ensures |SetOf(s)| == |s|
    decreases |s|
  {
    if s != [] {
      var n := |s| - 1;
      DistinctCount(s[..n]);
      assert SetOf(s) == SetOf(s[..n]) + {s[n]};
    }
  }

  /** Every accepted event adds one leaf, or `ACTIONS` leaves and `ACTIONS` new nullifiers. */
  lemma NextSizes(w: World, s: LedgerState, e: Event)
    requires Accepts(w, s, e)
    ensures |Next(w, s, e).leaves| == |s.leaves| + (if e.Received? then ACTIONS else 1)
    ensures |Next(w, s, e).nullifiers| == |s.nullifiers| + (if e.Received? then ACTIONS else 0)
  {
    match e
    case Added(_) => assert s.nullifiers + SetOf([]) == s.nullifiers;
    case Received(b, sighash) =>
      AcceptedByLedger(w, s, b, sighash);
      DistinctCount(Nullifiers(b.actions));
      assert s.nullifiers !! SetOf(Nullifiers(b.actions));
  }

  /** The set grows by the nullifiers of accepted bundles only, `ACTIONS` different ones each time. */
  lemma {:induction false} SizesCount(w: World, events: seq<Event>)
    ensures |Run(w, events).s.leaves| == Count(w, events, false) + ACTIONS * Count(w, events, true)
    ensures |Run(w, events).s.nullifiers| == ACTIONS * Count(w, events, true)
  {
    if events != [] {
      var before, e := events[..|events| - 1], events[|events| - 1];
      SizesCount(w, before);
      if Accepts(w, Run(w, before).s, e) { NextSizes(w, Run(w, before).s, e); }
    }
  }

  /** The nullifiers of all accepted bundles, in order. */
  function SpentNullifiers(w: World, events: seq<Event>): seq<Base>
  {
    if events == [] then []
    else
      var before, e := events[..|events| - 1], events[|events| - 1];
      SpentNullifiers(w, before) + if Accepts(w, Run(w, before).s, e) then NewNullifiers(e) else []
  }

  /** No double spend: over a whole run no nullifier is accepted twice. This needs no cryptography. */
  lemma {:induction false} NoDoubleSpend(w: World, events: seq<Event>)
    ensures Distinct(SpentNullifiers(w, events)) && SetOf(SpentNullifiers(w, events)) == Run(w, events).s.nullifiers
  {
    if events != [] {
      var before, e := events[..|events| - 1], events[|events| - 1];
      NoDoubleSpend(w, before);
      var s := Run(w, before).s;
      if Accepts(w, s, e) {
        if e.Received? { AcceptedByLedger(w, s, e.bundle, e.sighash); }
        DistinctAppend(SpentNullifiers(w, before), NewNullifiers(e));
      } else {
        assert SpentNullifiers(w, before) + [] == SpentNullifiers(w, before);
      }
    }
  }

  lemma RunSnoc(w: World, events: seq<Event>, i: nat)
    requires i < |events|
    ensures Run(w, events[..i + 1]).s == Next(w, Run(w, events[..i]).s, events[i])
  {
    assert events[..i + 1][..i] == events[..i];
  }

  /** One event on the ledger object. */
  method Advance(w: World, ledger: Ledger, e: Event)
    requires ledger.Valid() && ledger.crypto == w.c && (e.Received? ==> HasCoordinates(e.bundle))
    modifies ledger.tree, ledger.anchors, ledger.nullifiers
    ensures ledger.Valid() && ledger.State() == Next(w, old(ledger.State()), e)
  {
    match e
    case Added(cm) =>
      var _ := ledger.AddNote(cm);
    case Received(b, sighash) =>
      var _ := ledger.Apply(w.v, b, sighash);
  }

  /** The ledger object goes through the states of the run. */
  method Replay(w: World, ledger: Ledger, events: seq<Event>)
    requires ledger.Valid() && ledger.crypto == w.c && ledger.State() == InitialState(w.c)
    requires forall e | e in events && e.Received? :: HasCoordinates(e.bundle)
    modifies ledger.tree, ledger.anchors, ledger.nullifiers
    ensures ledger.Valid() && ledger.State() == Run(w, events).s
  {
    for i := 0 to |events|
      invariant ledger.Valid() && ledger.State() == Run(w, events[..i]).s
    {
      assert events[i] in events;
      RunSnoc(w, events, i);
      Advance(w, ledger, events[i]);
    }
    assert events[..|events|] == events;
  }
}
