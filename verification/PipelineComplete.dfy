/**
 Completeness of the whole path: what an honest server builds is accepted by the device, shown
 as it is, and, once authorised, accepted by the verifier.
 */
module PipelineComplete {
  import opened Widths
  import opened Field
  import opened Group
  import opened Bytes
  import opened Hashing
  import opened Notes
  import opened Merkle
  import opened NativeDecay
  import opened ActionCircuit
  import opened Balance
  import opened Bundles
  import opened Wire
  import opened TransferBodies
  import opened NoteEncryption
  import opened Signer
  import opened ActionComplete
  import opened Pipeline
  import opened TreeState

  // ---------------------------------------------------------------- the libraries do their job

  ghost predicate HasWitness(c: Crypto, inst: Instance, i: Inputs)
  {
    exists w :: Spend(inst, w) in Satisfying(c) && Fills(c, i, w)
  }

  /** A proof the prover returns for inputs that satisfy the circuit verifies and has the fixed size. */
  ghost predicate CompleteProver(sv: Server, v: Verifier)
  {
    forall insts, ins | |insts| == |ins| && forall i | 0 <= i < |ins| :: HasWitness(sv.c, insts[i], ins[i]) ::
      sv.prove(insts, ins).Some? ==> v.proof(insts, sv.prove(insts, ins).value) && |sv.prove(insts, ins).value| == PROOF_SIZE
  }

  /** A signature verifies under the public key of its secret key. */
  ghost predicate CompleteSigners(sv: Server, v: Verifier)
  {
    && (forall sk: Scalar, m, n :: v.spendAuth(Mul(sk, sv.c.G), m, sv.signSpend(sk, m, n)))
    && (forall sk: Scalar, m :: v.binding(Mul(sk, sv.c.R), m, sv.signBinding(sk, m)))
  }

  // ---------------------------------------------------------------- one action

  /** A note of a wallet, made by `from_parts` for an address of the key, with its place in the tree. */
  predicate OwnedSpend(c: Crypto, s: SpendInfo, community: Base, anchor: Base, now: u64, d: Diversifier)
  {
    var n := s.n.note;
    && ValidKey(c, s.fvk) && InWidths(n) && n.tNote <= now
    && (n.gdX, n.gdY) == c.coordinates(DiversifyHash(c, d))
    && (n.pkdX, n.pkdY) == c.coordinates(AddressOf(c, s.fvk, d).pkD)
    && InCommunity(n, community) && s.position < MAX_LEAVES && |s.path| == MERKLE_DEPTH
    && (n.value == 0 || MerkleRoot(c, Commitment(c, n), s.position, s.path) == anchor)
  }

  ghost predicate OwnedBy(c: Crypto, s: SpendInfo, community: Base, anchor: Base, now: u64)
  {
    exists d: Diversifier :: OwnedSpend(c, s, community, anchor, now, d)
  }

  lemma DummyIsOwned(c: Crypto, community: Base, anchor: Base, now: u64, t: Throwaway)
    requires GoodThrowaway(c, t) && now < TIMESTAMP_LIMIT
    ensures OwnedBy(c, DummySpend(c, community, now, t), community, anchor, now)
    ensures DummySpend(c, community, now, t).n.note.value == 0
  {
    assert OwnedSpend(c, DummySpend(c, community, now, t), community, anchor, now, t.d);
  }

  /** A planned action and what the third loop of `build` makes of it. */
  datatype Outcome = Outcome(p: Planned, b: Built)

  ghost function Outcomes(sv: Server, community: Base, now: u64, ovk: Option<bytes>): iset<Outcome>
  {
    iset o: Outcome | BuildAction(sv, community, now, o.p, ovk) == Ok(o.b)
  }

  ghost predicate BuiltFrom(sv: Server, community: Base, now: u64, p: Planned, ovk: Option<bytes>, b: Built)
  {
    Outcome(p, b) in Outcomes(sv, community, now, ovk)
  }

  lemma BuiltInputs(sv: Server, community: Base, now: u64, p: Planned, ovk: Option<bytes>, b: Built)
    requires BuiltFrom(sv, community, now, p, ovk, b)
    ensures b.inputs == Inputs(p.spend.n.note, p.spend.fvk, p.spend.position, p.spend.path, b.inputs.created, p.dice.rcv, p.dice.alpha)
    ensures b.inputs.spent.tNote <= now && b.action.rk == Add(p.spend.fvk.ak, Mul(p.dice.alpha, sv.c.G))
    ensures b.ask == p.ask && b.opening == OpeningOf(p.output, p.dice.rseed) && b.inputs.created.value == p.output.value
    ensures InWidths(b.inputs.created) && b.inputs.created.tNote == now && InCommunity(b.inputs.created, community)
    ensures b.action.nullifier == Nullifier(sv.c, p.spend.fvk.nk, p.spend.n.note.rho, Commitment(sv.c, p.spend.n.note))
    ensures b.inputs.created.rho == b.action.nullifier && b.action.cm == Commitment(sv.c, b.inputs.created)
    ensures FromParts(sv.c, community, community, p.output.value, now, p.output.kind, p.output.expiryEpoch, p.output.address,
      b.action.nullifier, p.output.memoCm, p.dice.rseed) == Ok(b.inputs.created)
    ensures b.action.cvNet == NativeCommitment(sv.c, SpendableValue(p.spend.n.note, now).value - p.output.value, p.dice.rcv)
    ensures b.action.encrypted == Encrypt(sv.c, sv.x, NoteWithSeed(b.inputs.created, p.dice.rseed), p.output.address, p.output.memo,
      ovk, b.action.cvNet, p.dice.noise)
  {}

  /** What a spend is worth never exceeds its value. */
  lemma WorthBound(n: Note, now: u64)
    requires n.tNote <= now && n.value < VALUE_LIMIT
    ensures SpendableValue(n, now).Some? && SpendableValue(n, now).value <= n.value
    ensures SpendableValue(n, now).value == DecayWindowed(n.value, now - n.tNote)
  {
    WorthIsBounded(n.value, now - n.tNote);
  }

  lemma WorthIsBounded(value: nat, duration: nat)
    requires value < VALUE_LIMIT
    ensures DecayWindowed(value, duration) <= value
  {
    DecayNeverGains(value, duration);
  }

  /** The published value commitment opens to the net value of the action. */
  lemma BuiltCommitment(sv: Server, community: Base, now: u64, p: Planned, ovk: Option<bytes>, b: Built)
    requires BuiltFrom(sv, community, now, p, ovk, b) && p.spend.n.note.value < VALUE_LIMIT
    ensures b.inputs.spent.tNote <= now && b.action.cvNet == ValueCommitment(sv.c, NetOf(b.inputs, now), b.inputs.rcv)
    ensures NetOf(b.inputs, now) == SpendableValue(p.spend.n.note, now).value - p.output.value
  {
    BuiltInputs(sv, community, now, p, ovk, b);
    CommitmentOpens(sv.c, b.inputs, now, b.action.cvNet);
  }

  lemma CommitmentOpens(c: Crypto, i: Inputs, now: u64, cv: Point)
    requires i.spent.tNote <= now && i.spent.value < VALUE_LIMIT
    requires cv == NativeCommitment(c, SpendableValue(i.spent, now).value - i.created.value, i.rcv)
    ensures cv == ValueCommitment(c, NetOf(i, now), i.rcv) && NetOf(i, now) == SpendableValue(i.spent, now).value - i.created.value
  {
    NetIsWorth(i, now);
    NetIsSmall(i, now);
    NativeCommitmentAgrees(c, NetOf(i, now), i.rcv);
  }

  lemma NetIsWorth(i: Inputs, now: u64)
    requires i.spent.tNote <= now && i.spent.value < VALUE_LIMIT
    ensures SpendableValue(i.spent, now).Some? && NetOf(i, now) == SpendableValue(i.spent, now).value - i.created.value
  {
    WorthBound(i.spent, now);
  }

  lemma NetIsSmall(i: Inputs, now: u64)
    requires i.spent.tNote <= now && i.spent.value < VALUE_LIMIT
    ensures -0x1_0000_0000_0000_0000 < NetOf(i, now) < 0x1_0000_0000_0000_0000
  {
    WorthIsBounded(i.spent.value, now - i.spent.tNote);
  }

  /** The public inputs of a built action have a witness with its private inputs. */
  lemma BuiltHasWitness(sv: Server, community: Base, anchor: Base, now: u64, p: Planned, ovk: Option<bytes>, b: Built)
    requires BuiltFrom(sv, community, now, p, ovk, b) && OwnedBy(sv.c, p.spend, community, anchor, now)
    ensures HasWitness(sv.c, InstanceOf(sv.c, community, anchor, b.action, now), b.inputs)
  {
    var d :| OwnedSpend(sv.c, p.spend, community, anchor, now, d);
    BuiltInputs(sv, community, now, p, ovk, b);
    BuiltCommitment(sv, community, now, p, ovk, b);
    PublicAgrees(sv.c, community, anchor, now, b);
    var w := ActionHasWitness(sv.c, b.inputs, community, anchor, now, DiversifyHash(sv.c, d),
      DiversifyHash(sv.c, p.output.address.d), p.output.address.pkD);
  }

  lemma PublicAgrees(c: Crypto, community: Base, anchor: Base, now: u64, b: Built)
    requires b.inputs.spent.tNote <= now && b.action.cvNet == ValueCommitment(c, NetOf(b.inputs, now), b.inputs.rcv)
    requires b.action.rk == Add(b.inputs.fvk.ak, Mul(b.inputs.alpha, c.G)) && b.action.cm == Commitment(c, b.inputs.created)
    requires b.action.nullifier == Nullifier(c, b.inputs.fvk.nk, b.inputs.spent.rho, Commitment(c, b.inputs.spent))
    ensures InstanceOf(c, community, anchor, b.action, now) == PublicOf(c, b.inputs, community, anchor, now)
  {}

  // ---------------------------------------------------------------- the whole bundle

  /** Every action was built from its plan, and every spend is owned by the key it is spent with. */
  ghost predicate BuiltAll(sv: Server, community: Base, anchor: Base, now: u64, plan: seq<Planned>, ovk: Option<bytes>, built: seq<Built>)
  {
    |built| == |plan| && forall i | 0 <= i < |plan| :: BuiltOwned(sv, community, anchor, now, plan[i], ovk, built[i])
  }

  ghost predicate BuiltOwned(sv: Server, community: Base, anchor: Base, now: u64, p: Planned, ovk: Option<bytes>, b: Built)
  {
    BuiltFrom(sv, community, now, p, ovk, b) && OwnedBy(sv.c, p.spend, community, anchor, now)
  }

  lemma {:induction false} BuildActionsAt(sv: Server, community: Base, now: u64, plan: seq<Planned>, ovk: Option<bytes>, i: nat)
    requires i < |plan| && BuildActions(sv, community, now, plan, ovk).Ok?
    ensures BuiltFrom(sv, community, now, plan[i], ovk, BuildActions(sv, community, now, plan, ovk).value[i])
    decreases |plan|
  {
    if i < |plan| - 1 { BuildActionsAt(sv, community, now, plan[..|plan| - 1], ovk, i); }
  }

  /** What the spend of a planned action is worth. */
  function Worth(p: Planned, now: u64): nat
  {
    if SpendableValue(p.spend.n.note, now).None? then 0 else SpendableValue(p.spend.n.note, now).value
  }

  lemma ZeroIsWorthless(n: Note, now: u64)
    requires n.value == 0 && n.tNote <= now
    ensures SpendableValue(n, now) == Some(0)
  {
    WorthBound(n, now);
  }

  lemma SpentPadded(community: Base, now: u64, spends: seq<SpendInfo>)
    requires |spends| <= ACTIONS && SpentTotal(community, now, spends).Ok?
    ensures forall i | 0 <= i < |spends| :: SpendableValue(spends[i].n.note, now).Some? && InCommunity(spends[i].n.note, community)
    ensures SpentTotal(community, now, spends).value ==
      (if |spends| > 0 then SpendableValue(spends[0].n.note, now).value else 0)
      + (if |spends| > 1 then SpendableValue(spends[1].n.note, now).value else 0)
  {
    if |spends| > 0 {
      var before := spends[..|spends| - 1];
      assert SpentTotal(community, now, before).Ok?;
      if |before| > 0 { assert before[..0] == []; }
    }
  }

  lemma CreatedPadded(c: Crypto, outputs: seq<OutputInfo>)
    requires |outputs| <= ACTIONS && CreatedTotal(c, outputs).Ok?
    ensures forall i | 0 <= i < |outputs| :: OpeningMatches(c, outputs[i])
    ensures CreatedTotal(c, outputs).value ==
      (if |outputs| > 0 then outputs[0].value else 0) + (if |outputs| > 1 then outputs[1].value else 0)
  {
    if |outputs| > 0 {
      var before := outputs[..|outputs| - 1];
      assert CreatedTotal(c, before).Ok?;
      if |before| > 0 { assert before[..0] == []; }
    }
  }

  /** Padding adds spends worth nothing and outputs of value 0 without a memo. */
  lemma PlanPadded(c: Crypto, community: Base, now: u64, spends: seq<SpendInfo>, outputs: seq<OutputInfo>,
      dice: seq<Dice>, aside: seq<Throwaway>, i: nat)
    requires i < |dice| == |aside| && (forall t | t in aside :: GoodThrowaway(c, t)) && now < TIMESTAMP_LIMIT
    ensures var p := PlanAt(c, community, now, spends, outputs, dice, aside, i);
      && (i >= |spends| ==> SpendableValue(p.spend.n.note, now) == Some(0))
      && (i >= |outputs| ==> p.output.value == 0 && OpeningMatches(c, p.output))
  {
    if i >= |spends| {
      assert GoodThrowaway(c, aside[i]);
      ZeroIsWorthless(DummySpend(c, community, now, aside[i]).n.note, now);
    }
  }

  /** The checks of `build` balance the padded plan. */
  lemma PlanBalances(c: Crypto, community: Base, now: u64, spends: seq<SpendInfo>, outputs: seq<OutputInfo>, dice: seq<Dice>, aside: seq<Throwaway>)
    requires |dice| == ACTIONS == |aside| && forall t | t in aside :: GoodThrowaway(c, t)
    requires BuildCheck(c, community, now, spends, outputs) == None
    ensures now < TIMESTAMP_LIMIT
    ensures var p := PlanAt(c, community, now, spends, outputs, dice, aside, 0);
      var q := PlanAt(c, community, now, spends, outputs, dice, aside, 1);
      && Worth(p, now) + Worth(q, now) == p.output.value + q.output.value
      && OpeningMatches(c, p.output) && OpeningMatches(c, q.output)
  {
    SpentPadded(community, now, spends);
    CreatedPadded(c, outputs);
    PlanPadded(c, community, now, spends, outputs, dice, aside, 0);
    PlanPadded(c, community, now, spends, outputs, dice, aside, 1);
  }

  function NetsOf(built: seq<Built>, now: u64): (s: seq<int>)
    requires forall i | 0 <= i < |built| :: built[i].inputs.spent.tNote <= now
    ensures |s| == |built|
  {
    seq(|built|, i requires 0 <= i < |built| => NetOf(built[i].inputs, now))
  }

  /** The value commitment of a built action opens to what its plan nets. */
  ghost predicate Opens(c: Crypto, now: u64, p: Planned, b: Built)
  {
    && b.inputs.spent.tNote <= now && NetOf(b.inputs, now) == Worth(p, now) - p.output.value
    && b.action.cvNet == ValueCommitment(c, NetOf(b.inputs, now), b.inputs.rcv)
  }

  lemma BuiltNet(sv: Server, community: Base, anchor: Base, now: u64, p: Planned, ovk: Option<bytes>, b: Built)
    requires BuiltOwned(sv, community, anchor, now, p, ovk, b)
    ensures Opens(sv.c, now, p, b)
  {
    BuiltCommitment(sv, community, now, p, ovk, b);
    BuiltInputs(sv, community, now, p, ovk, b);
    WorthBound(p.spend.n.note, now);
  }

  /** The nets of the padded actions cancel, so the binding key is `[sum rcv] R`. */
  lemma BindingKeyIsKnown(sv: Server, community: Base, anchor: Base, now: u64, plan: seq<Planned>, ovk: Option<bytes>, built: seq<Built>)
    requires BuiltAll(sv, community, anchor, now, plan, ovk, built) && |plan| == ACTIONS
    requires Worth(plan[0], now) + Worth(plan[1], now) == plan[0].output.value + plan[1].output.value
    ensures SumPoints(Cvs(ActionsOf(built))) == Mul(SumScalars(RcvsOf(built)), sv.c.R)
  {
    forall i | 0 <= i < |built| ensures Opens(sv.c, now, plan[i], built[i]) {
      assert BuiltOwned(sv, community, anchor, now, plan[i], ovk, built[i]);
      BuiltNet(sv, community, anchor, now, plan[i], ovk, built[i]);
    }
    OpenedSum(sv.c, now, plan, built);
  }

  lemma OpenedSum(c: Crypto, now: u64, plan: seq<Planned>, built: seq<Built>)
    requires |plan| == ACTIONS == |built| && forall i | 0 <= i < |built| :: Opens(c, now, plan[i], built[i])
    requires Worth(plan[0], now) + Worth(plan[1], now) == plan[0].output.value + plan[1].output.value
    ensures SumPoints(Cvs(ActionsOf(built))) == Mul(SumScalars(RcvsOf(built)), c.R)
  {
    assert Opens(c, now, plan[0], built[0]) && Opens(c, now, plan[1], built[1]);
    var nets := NetsOf(built, now);
    CommitmentsAdd(c, nets, RcvsOf(built), Cvs(ActionsOf(built)));
    SumOfTwo(nets);
    NothingPlus(c, SumScalars(RcvsOf(built)));
  }

  lemma SumOfTwo(nets: seq<int>)
    requires |nets| == 2
    ensures SumInts(nets) == nets[0] + nets[1]
  {
    assert SumInts(nets) == SumInts(nets[..1]) + nets[1];
    assert SumInts(nets[..1]) == SumInts(nets[..1][..0]) + nets[..1][0];
  }

  lemma NothingPlus(c: Crypto, r: Scalar)
    ensures ValueCommitment(c, 0, r) == Mul(r, c.R)
  {
    ReduceScalarSmall(Mul(r, c.R));
  }

  // ---------------------------------------------------------------- the device accepts

  /** The types of an output: fixed-size arrays. */
  predicate OutputShape(o: OutputInfo)
  {
    && |o.memo| == FREE_MEMO_SIZE
    && (o.memoOpening.Some? ==> |o.memoOpening.value.text| == MEMO_LEN)
  }

  /** A memo that is sent has a commitment other than 0, which stands for no memo. */
  predicate Committed(o: OutputInfo) { o.memoOpening.Some? ==> o.memoCm != 0 }

  /** The first output whose memo commits to 0. */
  function FirstUncommitted(outputs: seq<OutputInfo>): (r: Option<nat>)
    ensures r.None? <==> forall o | o in outputs :: Committed(o)
    ensures r.Some? ==> r.value < |outputs| && !Committed(outputs[r.value])
    ensures r.Some? ==> forall k | 0 <= k < r.value :: Committed(outputs[k])
  {
    if outputs == [] then None
    else
      var n := |outputs| - 1;
      var before := FirstUncommitted(outputs[..n]);
      assert outputs == outputs[..n] + [outputs[n]];
      if before.Some? then before else if Committed(outputs[n]) then None else Some(n)
  }

  /** `build` takes a memo that commits to 0 for a match, `review` does not. */
  lemma ZeroCommitment(c: Crypto, o: OutputInfo, rseed: bytes)
    requires o.memoOpening.Some? && MemoCommit(c, o.memoOpening.value) == 0 && o.memoCm == 0
    ensures OpeningMatches(c, o) && !MemoMatches(c, OpeningOf(o, rseed))
  {}

  /** Device and server compute the same functions for the same community. */
  ghost predicate SameParty(d: Device, sv: Server, community: Base)
  {
    d.c == sv.c && d.x == sv.x && d.community == community
  }

  /** The device finds no fault with a built action, except a memo that commits to 0. */
  lemma BuiltFault(d: Device, sv: Server, community: Base, now: u64, p: Planned, b: Built)
    requires SameParty(d, sv, community) && BuiltFrom(sv, community, now, p, Some(d.fvk.ovk), b)
    requires OpeningMatches(sv.c, p.output)
    ensures FaultOf(d, now, b.action, b.opening) == if Committed(p.output) then None else Some(MemoFault)
  {
    BuiltInputs(sv, community, now, p, Some(d.fvk.ovk), b);
  }

  lemma BuiltIsOwnSpend(d: Device, sv: Server, community: Base, now: u64, p: Planned, b: Built)
    requires SameParty(d, sv, community) && BuiltFrom(sv, community, now, p, Some(d.fvk.ovk), b)
    requires p.ask.None? ==> p.spend.fvk == d.fvk
    ensures SpenderOf(d, b.action, if b.ask.None? then Some(b.inputs.alpha) else None) != Foreign
  {
    BuiltInputs(sv, community, now, p, Some(d.fvk.ovk), b);
  }

  // ---------------------------------------------------------------- the session

  /** Everything that goes into one transfer. */
  datatype Session = Session(
    sv: Server, v: Verifier, d: Device, ask: Scalar, community: Base, anchor: Base, now: u64,
    spends: seq<SpendInfo>, outputs: seq<OutputInfo>, dice: seq<Dice>, aside: seq<Throwaway>, version: u32)

  /** The libraries keep their laws, and device and server belong together. */
  ghost predicate LibraryLaws(s: Session)
  {
    && SuiteLaws(s.sv.c, s.sv.x) && CompleteProver(s.sv, s.v) && CompleteSigners(s.sv, s.v)
    && SameParty(s.d, s.sv, s.community) && KeyPair(s.sv.c, s.ask, s.d.fvk)
  }

  ghost function Equipped(): iset<Session> { iset s: Session | LibraryLaws(s) }

  ghost predicate Libraries(s: Session) { s in Equipped() }

  ghost predicate HonestDraws(s: Session)
  {
    && |s.dice| == ACTIONS == |s.aside| && (forall t | t in s.aside :: GoodThrowaway(s.sv.c, t))
    && forall i | 0 <= i < ACTIONS :: |s.dice[i].rseed| == 32
  }

  /** At least one real spend, all of them the device's own notes, and outputs of the fixed sizes. */
  ghost predicate HonestWallet(s: Session)
  {
    && 0 < |s.spends| && (forall x | x in s.spends :: x.fvk == s.d.fvk && OwnedBy(s.sv.c, x, s.community, s.anchor, s.now))
    && forall o | o in s.outputs :: OutputShape(o)
  }

  function BuildOf(s: Session): Result<Unauthorized, BuildError>
    requires |s.dice| == ACTIONS == |s.aside| && forall t | t in s.aside :: GoodThrowaway(s.sv.c, t)
  {
    Build(s.sv, s.community, s.anchor, s.now, s.spends, s.outputs, Some(s.d.fvk.ovk), s.dice, s.aside)
  }

  /** The build succeeded, and no point that is published came out as the identity. */
  ghost predicate BuiltWell(s: Session, u: Unauthorized)
  {
    && HonestDraws(s) && BuildOf(s) == Ok(u)
    && forall b | b in u.built :: b.action.rk != IDENTITY && b.action.cvNet != IDENTITY
  }

  function PlannedAt(s: Session, i: nat): Planned
    requires i < |s.dice| == |s.aside| && (forall t | t in s.aside :: GoodThrowaway(s.sv.c, t)) && s.now < TIMESTAMP_LIMIT
  {
    PlanAt(s.sv.c, s.community, s.now, s.spends, s.outputs, s.dice, s.aside, i)
  }

  /** One planned action of an honest session. */
  ghost predicate HonestPlan(s: Session, p: Planned)
  {
    && OwnedBy(s.sv.c, p.spend, s.community, s.anchor, s.now) && OutputShape(p.output) && OpeningMatches(s.sv.c, p.output)
    && |p.dice.rseed| == 32 && (if p.ask.None? then p.spend.fvk == s.d.fvk else KeyPair(s.sv.c, p.ask.value, p.spend.fvk))
  }

  lemma PlanIsHonest(s: Session, i: nat)
    requires HonestDraws(s) && HonestWallet(s) && i < ACTIONS && s.now < TIMESTAMP_LIMIT && OpeningMatches(s.sv.c, PlannedAt(s, i).output)
    ensures HonestPlan(s, PlannedAt(s, i))
  {
    var p := PlannedAt(s, i);
    if i >= |s.spends| {
      DummyIsOwned(s.sv.c, s.community, s.anchor, s.now, s.aside[i]);
    }
    if i < |s.spends| {
      assert s.spends[i] in s.spends;
    }
    if i < |s.outputs| {
      assert s.outputs[i] in s.outputs;
    }
  }

  ghost function HonestPlans(s: Session): iset<Planned> { iset p: Planned | HonestPlan(s, p) }

  /** What the session built, action by action. */
  ghost predicate SessionBuilt(s: Session, u: Unauthorized, plan: seq<Planned>)
  {
    && u.anchor == s.anchor && u.now == s.now && u.community == s.community && s.now < TIMESTAMP_LIMIT
    && |plan| == ACTIONS == |u.built|
    && (forall p | p in plan :: p in HonestPlans(s))
    && (forall i | 0 <= i < ACTIONS :: BuiltFrom(s.sv, s.community, s.now, plan[i], Some(s.d.fvk.ovk), u.built[i]))
    && Worth(plan[0], s.now) + Worth(plan[1], s.now) == plan[0].output.value + plan[1].output.value
    && s.sv.prove(InstancesFor(s.sv.c, s.community, s.anchor, s.now, u.built), InputsOf(u.built)) == Some(u.proof)
  }

  /** The plans the session can have been built from. */
  ghost function PlansFor(s: Session, u: Unauthorized): iset<seq<Planned>>
  {
    iset plan: seq<Planned> | SessionBuilt(s, u, plan)
  }

  lemma PlansAreHonest(s: Session, plan: seq<Planned>)
    requires HonestDraws(s) && HonestWallet(s) && s.now < TIMESTAMP_LIMIT
    requires plan == Plan(s.sv.c, s.community, s.now, s.spends, s.outputs, s.dice, s.aside)
    requires OpeningMatches(s.sv.c, PlannedAt(s, 0).output) && OpeningMatches(s.sv.c, PlannedAt(s, 1).output)
    ensures forall p | p in plan :: p in HonestPlans(s)
  {
    PlanIsHonest(s, 0);
    PlanIsHonest(s, 1);
    assert plan == [PlannedAt(s, 0), PlannedAt(s, 1)];
  }

  lemma BuildUnfolds(s: Session, u: Unauthorized)
    requires |s.dice| == ACTIONS == |s.aside| && (forall t | t in s.aside :: GoodThrowaway(s.sv.c, t)) && BuildOf(s) == Ok(u)
    ensures s.now < TIMESTAMP_LIMIT && |s.outputs| <= ACTIONS && BuildCheck(s.sv.c, s.community, s.now, s.spends, s.outputs) == None
    ensures var plan := Plan(s.sv.c, s.community, s.now, s.spends, s.outputs, s.dice, s.aside);
      BuildActions(s.sv, s.community, s.now, plan, Some(s.d.fvk.ovk)) == Ok(u.built)
    ensures u.anchor == s.anchor && u.now == s.now && u.community == s.community
    ensures s.sv.prove(InstancesFor(s.sv.c, s.community, s.anchor, s.now, u.built), InputsOf(u.built)) == Some(u.proof)
  {}

  lemma ActionsBuilt(s: Session, plan: seq<Planned>, built: seq<Built>)
    requires |plan| == ACTIONS && BuildActions(s.sv, s.community, s.now, plan, Some(s.d.fvk.ovk)) == Ok(built)
    ensures forall i | 0 <= i < ACTIONS :: BuiltFrom(s.sv, s.community, s.now, plan[i], Some(s.d.fvk.ovk), built[i])
  {
    forall i | 0 <= i < ACTIONS ensures BuiltFrom(s.sv, s.community, s.now, plan[i], Some(s.d.fvk.ovk), built[i]) {
      BuildActionsAt(s.sv, s.community, s.now, plan, Some(s.d.fvk.ovk), i);
    }
  }

  lemma SessionFacts(s: Session, u: Unauthorized) returns (plan: seq<Planned>)
    requires BuiltWell(s, u) && HonestWallet(s)
    ensures plan in PlansFor(s, u) && |s.outputs| <= ACTIONS
    ensures forall i | 0 <= i < ACTIONS :: plan[i] == PlannedAt(s, i)
  {
    BuildUnfolds(s, u);
    PlanBalances(s.sv.c, s.community, s.now, s.spends, s.outputs, s.dice, s.aside);
    plan := Plan(s.sv.c, s.community, s.now, s.spends, s.outputs, s.dice, s.aside);
    PlansAreHonest(s, plan);
    ActionsBuilt(s, plan, u.built);
    assert plan[0] == PlannedAt(s, 0) && plan[1] == PlannedAt(s, 1);
    IsPlan(s, u, plan);
  }

  lemma IsPlan(s: Session, u: Unauthorized, plan: seq<Planned>)
    requires SessionBuilt(s, u, plan)
    ensures plan in PlansFor(s, u)
  {}

  // ---------------------------------------------------------------- the node accepts

  lemma SessionProves(s: Session, u: Unauthorized, plan: seq<Planned>)
    requires CompleteProver(s.sv, s.v) && plan in PlansFor(s, u)
    ensures s.v.proof(InstancesFor(s.sv.c, s.community, s.anchor, s.now, u.built), u.proof) && |u.proof| == PROOF_SIZE
  {
    var insts := InstancesFor(s.sv.c, s.community, s.anchor, s.now, u.built);
    forall i | 0 <= i < |u.built| ensures HasWitness(s.sv.c, insts[i], InputsOf(u.built)[i]) {
      assert plan[i] in HonestPlans(s);
      BuiltHasWitness(s.sv, s.community, s.anchor, s.now, plan[i], Some(s.d.fvk.ovk), u.built[i]);
    }
  }

  lemma SessionBinds(s: Session, u: Unauthorized, plan: seq<Planned>)
    requires plan in PlansFor(s, u)
    ensures SumPoints(Cvs(ActionsOf(u.built))) == Mul(SumScalars(RcvsOf(u.built)), s.sv.c.R)
  {
    forall i | 0 <= i < |plan| ensures BuiltOwned(s.sv, s.community, s.anchor, s.now, plan[i], Some(s.d.fvk.ovk), u.built[i]) {
      assert plan[i] in HonestPlans(s);
    }
    BindingKeyIsKnown(s.sv, s.community, s.anchor, s.now, plan, Some(s.d.fvk.ovk), u.built);
  }

  /** The key an action's spend is signed with. */
  function SpendKey(ask: Scalar, b: Built): Scalar
  {
    ReduceScalar((if b.ask.None? then ask else b.ask.value) + b.inputs.alpha)
  }

  lemma KeyFits(c: Crypto, ask: Scalar, alpha: Scalar, ak: Point)
    requires ak == Mul(ask, c.G)
    ensures Add(ak, Mul(alpha, c.G)) == Mul(ReduceScalar(ask + alpha), c.G)
  {
    ReduceScalarSmall(ask);
    ReduceScalarSmall(alpha);
    MulAdds(ask, alpha, c.G);
  }

  lemma BuiltKey(s: Session, p: Planned, b: Built)
    requires BuiltFrom(s.sv, s.community, s.now, p, Some(s.d.fvk.ovk), b)
    ensures b.action.rk == Add(p.spend.fvk.ak, Mul(b.inputs.alpha, s.sv.c.G)) && b.ask == p.ask
  {
    BuiltInputs(s.sv, s.community, s.now, p, Some(s.d.fvk.ovk), b);
  }

  lemma SpendKeyFits(s: Session, p: Planned, b: Built)
    requires KeyPair(s.sv.c, s.ask, s.d.fvk) && p in HonestPlans(s) && b.ask == p.ask
    requires b.action.rk == Add(p.spend.fvk.ak, Mul(b.inputs.alpha, s.sv.c.G))
    ensures b.action.rk == Mul(SpendKey(s.ask, b), s.sv.c.G)
  {
    KeyFits(s.sv.c, if b.ask.None? then s.ask else b.ask.value, b.inputs.alpha, p.spend.fvk.ak);
  }

  lemma SessionKeys(s: Session, u: Unauthorized, plan: seq<Planned>)
    requires KeyPair(s.sv.c, s.ask, s.d.fvk) && plan in PlansFor(s, u)
    ensures forall b | b in u.built :: b.action.rk == Mul(SpendKey(s.ask, b), s.sv.c.G)
  {
    forall i | 0 <= i < |u.built| ensures u.built[i].action.rk == Mul(SpendKey(s.ask, u.built[i]), s.sv.c.G) {
      assert plan[i] in HonestPlans(s);
      BuiltKey(s, plan[i], u.built[i]);
      SpendKeyFits(s, plan[i], u.built[i]);
    }
  }

  /** The device signs for the real spends, in order. */
  lemma {:induction false} DeviceSigsAt(sv: Server, ask: Scalar, built: seq<Built>, sighash: bytes, i: nat)
    requires i < |built|
    ensures |DeviceSigs(sv, ask, AlphasOf(built), sighash)| == RealSpends(built)
    ensures RealSpends(built[..i]) <= RealSpends(built)
    ensures built[i].ask.None? ==> RealSpends(built[..i]) < |DeviceSigs(sv, ask, AlphasOf(built), sighash)|
    ensures built[i].ask.None? ==>
      DeviceSigs(sv, ask, AlphasOf(built), sighash)[RealSpends(built[..i])] == sv.signSpend(SpendKey(ask, built[i]), sighash, i)
    decreases |built|
  {
    var n := |built| - 1;
    assert AlphasOf(built)[..n] == AlphasOf(built[..n]);
    if i < n {
      DeviceSigsAt(sv, ask, built[..n], sighash, i);
      assert built[..n][..i] == built[..i];
    } else if n > 0 {
      DeviceSigsAt(sv, ask, built[..n], sighash, 0);
    }
  }

  predicate SigsVerify(v: Verifier, built: seq<Built>, sighash: bytes, sigs: seq<bytes>)
  {
    |sigs| == |built| && forall i | 0 <= i < |built| :: v.spendAuth(built[i].action.rk, sighash, sigs[i])
  }

  lemma SigsSnoc(v: Verifier, front: seq<Built>, b: Built, sighash: bytes, sigs: seq<bytes>, sig: bytes)
    requires SigsVerify(v, front, sighash, sigs) && v.spendAuth(b.action.rk, sighash, sig)
    ensures SigsVerify(v, front + [b], sighash, sigs + [sig])
  {}

  /** The signature `authorize` takes for action `i` is there and verifies. */
  ghost predicate SigAt(sv: Server, v: Verifier, built: seq<Built>, sighash: bytes, device: seq<bytes>, i: nat)
    requires i < |built|
  {
    && (built[i].ask.None? ==> RealSpends(built[..i]) < |device|)
    && var sig := SpendSig(sv, v, built[i], i, RealSpends(built[..i]), sighash, device);
    && sig.Ok? && v.spendAuth(built[i].action.rk, sighash, sig.value)
  }

  lemma SigAtHolds(sv: Server, v: Verifier, ask: Scalar, built: seq<Built>, sighash: bytes, i: nat)
    requires CompleteSigners(sv, v) && i < |built| && built[i].action.rk == Mul(SpendKey(ask, built[i]), sv.c.G)
    ensures SigAt(sv, v, built, sighash, DeviceSigs(sv, ask, AlphasOf(built), sighash), i)
  {
    DeviceSigsAt(sv, ask, built, sighash, i);
    assert v.spendAuth(built[i].action.rk, sighash, sv.signSpend(SpendKey(ask, built[i]), sighash, i));
  }

  /** Every signature `authorize` collects verifies, so it collects one for every action. */
  lemma {:induction false} SpendSigsVerify(sv: Server, v: Verifier, built: seq<Built>, sighash: bytes, device: seq<bytes>, n: nat)
    requires n <= |built| && forall i | 0 <= i < |built| :: SigAt(sv, v, built, sighash, device, i)
    ensures RealSpends(built[..n]) <= |device| && SpendSigs(sv, v, built[..n], sighash, device).Ok?
    ensures SigsVerify(v, built[..n], sighash, SpendSigs(sv, v, built[..n], sighash, device).value)
  {
    if n > 0 {
      var b, front := built[n - 1], built[..n - 1];
      SpendSigsVerify(sv, v, built, sighash, device, n - 1);
      assert SigAt(sv, v, built, sighash, device, n - 1);
      assert built[..n] == front + [b] && built[..n - 1] == front;
      SpendSigsSnoc(sv, v, built, sighash, device, n - 1);
      SigsSnoc(v, front, b, sighash, SpendSigs(sv, v, front, sighash, device).value,
        SpendSig(sv, v, b, n - 1, RealSpends(front), sighash, device).value);
    }
  }

  /** Valid parts make an authorised bundle that passes the node's cryptographic checks. */
  lemma AuthorizedVerifies(sv: Server, v: Verifier, ask: Scalar, u: Unauthorized, sighash: bytes)
    requires CompleteSigners(sv, v) && |u.built| == ACTIONS
    requires forall b | b in u.built :: b.action.rk == Mul(SpendKey(ask, b), sv.c.G)
    requires forall b | b in u.built :: b.action.rk != IDENTITY && b.action.cvNet != IDENTITY
    requires SumPoints(Cvs(ActionsOf(u.built))) == Mul(SumScalars(RcvsOf(u.built)), sv.c.R)
    requires v.proof(InstancesFor(sv.c, u.community, u.anchor, u.now, u.built), u.proof) && |u.proof| == PROOF_SIZE
    ensures var b := Authorize(sv, v, u, sighash, DeviceSigs(sv, ask, AlphasOf(u.built), sighash));
      b.Ok? && HasCoordinates(b.value) && VerifyBundleCrypto(v, sv.c, b.value, sighash).Ok?
  {
    DeviceSigsAt(sv, ask, u.built, sighash, 0);
    forall i | 0 <= i < ACTIONS ensures SigAt(sv, v, u.built, sighash, DeviceSigs(sv, ask, AlphasOf(u.built), sighash), i) {
      assert u.built[i] in u.built;
      SigAtHolds(sv, v, ask, u.built, sighash, i);
    }
    SpendSigsVerify(sv, v, u.built, sighash, DeviceSigs(sv, ask, AlphasOf(u.built), sighash), ACTIONS);
    assert u.built[..ACTIONS] == u.built;
    var b := Authorize(sv, v, u, sighash, DeviceSigs(sv, ask, AlphasOf(u.built), sighash)).value;
    assert Instances(sv.c, b) == InstancesFor(sv.c, u.community, u.anchor, u.now, u.built);
    assert v.binding(Mul(SumScalars(RcvsOf(u.built)), sv.c.R), sighash, sv.signBinding(SumScalars(RcvsOf(u.built)), sighash));
  }

  // ---------------------------------------------------------------- the request

  ghost function GoodActions(): iset<Action> { iset a: Action | WellFormedAction(a) }

  lemma BuiltWellFormed(s: Session, p: Planned, b: Built)
    requires SuiteLaws(s.sv.c, s.sv.x) && BuiltFrom(s.sv, s.community, s.now, p, Some(s.d.fvk.ovk), b)
    requires |p.dice.rseed| == 32 && |p.output.memo| == FREE_MEMO_SIZE
    requires b.action.rk != IDENTITY && b.action.cvNet != IDENTITY
    ensures b.action in GoodActions()
  {
    BuiltInputs(s.sv, s.community, s.now, p, Some(s.d.fvk.ovk), b);
    PlaintextLayout(NoteWithSeed(b.inputs.created, p.dice.rseed), p.output.memo);
  }

  lemma PlanSizes(s: Session, p: Planned)
    requires p in HonestPlans(s)
    ensures |p.dice.rseed| == 32 && |p.output.memo| == FREE_MEMO_SIZE
  {}

  lemma OnWireAt(s: Session, u: Unauthorized, plan: seq<Planned>, i: nat)
    requires SuiteLaws(s.sv.c, s.sv.x) && plan in PlansFor(s, u) && i < ACTIONS
    requires u.built[i].action.rk != IDENTITY && u.built[i].action.cvNet != IDENTITY
    ensures u.built[i].action in GoodActions()
  {
    PlanSizes(s, plan[i]);
    BuiltWellFormed(s, plan[i], u.built[i]);
  }

  lemma SessionOnWire(s: Session, u: Unauthorized, plan: seq<Planned>)
    requires SuiteLaws(s.sv.c, s.sv.x) && plan in PlansFor(s, u)
    requires forall b | b in u.built :: b.action.rk != IDENTITY && b.action.cvNet != IDENTITY
    ensures |u.built| == ACTIONS && forall b | b in u.built :: b.action in GoodActions()
  {
    forall i | 0 <= i < ACTIONS ensures u.built[i].action in GoodActions() {
      OnWireAt(s, u, plan, i);
    }
  }

  lemma GoodIsWellFormed(built: seq<Built>)
    requires |built| == ACTIONS && forall b | b in built :: b.action in GoodActions()
    ensures WellFormedActions(ActionsOf(built))
  {
    forall i | 0 <= i < ACTIONS ensures WellFormedAction(ActionsOf(built)[i]) {
      assert built[i] in built;
    }
  }

  lemma EmptyIsRefused(k: PointCodec)
    ensures DecodeShielded(k, []).Err?
  {}

  /** The body of well-formed actions carries them. */
  lemma BodyReadsBack(d: Device, now: u64, version: u32, anchor: Base, actions: seq<Action>)
    requires CanonicalPoints(d.x.points) && WellFormedActions(actions) && now < TIMESTAMP_LIMIT
    ensures BodyCarries(d, EncodeTransferBody(now, version, EncodeShielded(d.x.points, anchor, actions)), now, actions)
  {
    var shielded := EncodeShielded(d.x.points, anchor, actions);
    DecodeShieldedExact(d.x.points, shielded, anchor, actions);
    EmptyIsRefused(d.x.points);
    ShieldedIsShort(d.x.points, shielded);
    TransferBodyBack(now, version, shielded);
  }

  lemma ShieldedIsShort(k: PointCodec, shielded: bytes)
    requires DecodeShielded(k, shielded).Ok?
    ensures |shielded| <= MAX_SHIELDED_BUNDLE_SIZE
  {}

  lemma SessionAction(s: Session, p: Planned, b: Built)
    requires Libraries(s) && p in HonestPlans(s) && BuiltFrom(s.sv, s.community, s.now, p, Some(s.d.fvk.ovk), b)
    ensures FaultOf(s.d, s.now, b.action, b.opening) == if Committed(p.output) then None else Some(MemoFault)
    ensures SpenderOf(s.d, b.action, if b.ask.None? then Some(b.inputs.alpha) else None) != Foreign
  {
    BuiltFault(s.d, s.sv, s.community, s.now, p, b);
    BuiltIsOwnSpend(s.d, s.sv, s.community, s.now, p, b);
  }

  /** What the device finds in action `i` of the request. */
  lemma SessionFinding(s: Session, u: Unauthorized, plan: seq<Planned>, body: bytes, i: nat)
    requires Libraries(s) && plan in PlansFor(s, u) && i < ACTIONS
    ensures var r := RequestOf(u, body);
      && FaultOf(s.d, s.now, ActionsOf(u.built)[i], r.outputs[i]) == (if Committed(plan[i].output) then None else Some(MemoFault))
      && SpenderOf(s.d, ActionsOf(u.built)[i], r.alphas[i]) != Foreign
  {
    assert plan[i] in HonestPlans(s);
    SessionAction(s, plan[i], u.built[i]);
  }

  lemma SessionActionsOk(s: Session, u: Unauthorized, plan: seq<Planned>, body: bytes)
    requires Libraries(s) && plan in PlansFor(s, u) && Committed(plan[0].output) && Committed(plan[1].output)
    ensures ActionsOk(s.d, s.now, ActionsOf(u.built), RequestOf(u, body))
  {
    SessionFinding(s, u, plan, body, 0);
    SessionFinding(s, u, plan, body, 1);
    BothOk(s.d, s.now, ActionsOf(u.built), RequestOf(u, body));
  }

  lemma BothOk(d: Device, now: u64, actions: seq<Action>, r: SigningRequest)
    requires |actions| == ACTIONS == |r.outputs| && |r.alphas| == ACTIONS
    requires FaultOf(d, now, actions[0], r.outputs[0]) == None && SpenderOf(d, actions[0], r.alphas[0]) != Foreign
    requires FaultOf(d, now, actions[1], r.outputs[1]) == None && SpenderOf(d, actions[1], r.alphas[1]) != Foreign
    ensures ActionsOk(d, now, actions, r)
  {
    forall i | 0 <= i < |actions| ensures ActionOk(d, now, actions[i], r.outputs[i], r.alphas[i]) {
      if i > 0 { assert i == 1; }
    }
  }

  lemma MemoFaultAt(d: Device, now: u64, actions: seq<Action>, r: SigningRequest, i: nat)
    requires |actions| == ACTIONS && |r.outputs| == ACTIONS && |r.alphas| == ACTIONS && i < ACTIONS
    requires i > 0 ==> FaultOf(d, now, actions[0], r.outputs[0]) == None && SpenderOf(d, actions[0], r.alphas[0]) != Foreign
    requires FaultOf(d, now, actions[i], r.outputs[i]) == Some(MemoFault)
    ensures ReviewDecoded(d, r, now, actions) == Err(ReviewError.MemoMismatch(i))
  {
    FirstFault(d, r, now, actions, i, MemoFault);
  }

  /** What the owner asked for, as payments and change; the seed of a note is not shown. */
  function Asked(outputs: seq<OutputInfo>): (s: seq<OutputOpening>)
    ensures |s| == |outputs|
  {
    seq(|outputs|, i requires 0 <= i < |outputs| => OpeningOf(outputs[i], []))
  }

  /** Openings that differ only in their seed are shown alike. */
  lemma ShownAlike(d: Device, asked: seq<OutputOpening>, openings: seq<OutputOpening>)
    requires |asked| == |openings| && forall i | 0 <= i < |asked| :: openings[i].(rseed := []) == asked[i]
    ensures Payments(d, openings) == Payments(d, asked) && OwnValue(d, openings) == OwnValue(d, asked)
    decreases |openings|
  {
    if openings != [] {
      var n := |openings| - 1;
      ShownAlike(d, asked[..n], openings[..n]);
      SameDestination(d, asked[n], openings[n]);
      ShownStep(d, asked);
      ShownStep(d, openings);
    }
  }

  /** Padding is not shown. */
  lemma PaddingUnshown(d: Device, openings: seq<OutputOpening>, m: nat)
    requires m <= |openings| && forall i | m <= i < |openings| :: openings[i].value == 0
    ensures Payments(d, openings) == Payments(d, openings[..m]) && OwnValue(d, openings) == OwnValue(d, openings[..m])
    decreases |openings|
  {
    if m < |openings| {
      var n := |openings| - 1;
      PaddingUnshown(d, openings[..n], m);
      assert openings[..n][..m] == openings[..m];
      ZeroIsNoPayment(d, openings[n]);
      ShownStep(d, openings);
    } else {
      assert openings[..m] == openings;
    }
  }

  lemma ShownStep(d: Device, openings: seq<OutputOpening>)
    requires openings != []
    ensures var n := |openings| - 1; var to := DestinationOf(d, openings[n]);
      && Payments(d, openings) == (if to == ToOther then Payments(d, openings[..n]) + [PaymentOf(openings[n])] else Payments(d, openings[..n]))
      && OwnValue(d, openings) == OwnValue(d, openings[..n]) + (if to == ToOwner then openings[n].value else 0)
  {}

  lemma ZeroIsNoPayment(d: Device, o: OutputOpening)
    requires o.value == 0
    ensures DestinationOf(d, o) != ToOther
  {}

  lemma SameDestination(d: Device, a: OutputOpening, b: OutputOpening)
    requires b.(rseed := []) == a
    ensures DestinationOf(d, a) == DestinationOf(d, b) && PaymentOf(a) == PaymentOf(b) && a.value == b.value
  {}

  lemma BuiltOpening(s: Session, p: Planned, b: Built)
    requires BuiltFrom(s.sv, s.community, s.now, p, Some(s.d.fvk.ovk), b)
    ensures b.opening == OpeningOf(p.output, p.dice.rseed) && b.ask == p.ask
  {
    BuiltInputs(s.sv, s.community, s.now, p, Some(s.d.fvk.ovk), b);
  }

  /** A planned opening is the output that was asked for, or padding. */
  lemma PlannedOpening(s: Session, p: Planned, i: nat)
    requires HonestDraws(s) && s.now < TIMESTAMP_LIMIT && i < ACTIONS && p == PlannedAt(s, i)
    ensures if i < |s.outputs| then OpeningOf(p.output, p.dice.rseed).(rseed := []) == Asked(s.outputs)[i] else p.output.value == 0
  {}

  lemma SessionShown(s: Session, u: Unauthorized, plan: seq<Planned>)
    requires HonestDraws(s) && plan in PlansFor(s, u) && |s.outputs| <= ACTIONS && 0 < |s.spends|
    requires forall i | 0 <= i < ACTIONS :: plan[i] == PlannedAt(s, i)
    ensures Payments(s.d, OpeningsOf(u.built)) == Payments(s.d, Asked(s.outputs))
    ensures OwnValue(s.d, OpeningsOf(u.built)) == OwnValue(s.d, Asked(s.outputs))
    ensures SpendCount(AlphasOf(u.built)) > 0
  {
    var openings, asked := OpeningsOf(u.built), Asked(s.outputs);
    forall i | 0 <= i < ACTIONS
      ensures u.built[i].ask == plan[i].ask
      ensures if i < |s.outputs| then openings[i].(rseed := []) == asked[i] else openings[i].value == 0
    {
      BuiltOpening(s, plan[i], u.built[i]);
      PlannedOpening(s, plan[i], i);
    }
    PaddingUnshown(s.d, openings, |asked|);
    ShownAlike(s.d, asked, openings[..|asked|]);
    assert plan[0] == PlannedAt(s, 0);
    FirstCounts(AlphasOf(u.built));
  }

  lemma FirstCounts(alphas: seq<Option<Scalar>>)
    requires |alphas| > 0 && alphas[0].Some?
    ensures SpendCount(alphas) > 0
    decreases |alphas|
  {
    if |alphas| > 1 { FirstCounts(alphas[..|alphas| - 1]); }
  }

  /** The body the server puts the built actions into. */
  function BodyFor(s: Session, u: Unauthorized): bytes
  {
    EncodeTransferBody(s.now, s.version, EncodeShielded(s.sv.x.points, u.anchor, ActionsOf(u.built)))
  }

  /** The device's answer to an honest request: the first memo that commits to 0, or what was asked for. */
  function Answer(s: Session, u: Unauthorized, body: bytes): Result<Review, ReviewError>
  {
    match FirstUncommitted(s.outputs)
    case Some(i) => Err(ReviewError.MemoMismatch(i))
    case None => Ok(Review(s.now, Payments(s.d, Asked(s.outputs)), OwnValue(s.d, Asked(s.outputs)),
                           s.d.sighash(body), SpendCount(AlphasOf(u.built))))
  }

  /**
   The honest path is complete. The device accepts the request for what was built if and only if
   every memo that was given has a commitment other than 0. Then it shows exactly the foreign outputs
   of positive value and the own ones as change; otherwise it names the first such memo. With
   signatures under the device's key `authorize` makes a bundle the node's cryptographic checks accept,
   whatever the memos commit to.
   */
  lemma HonestTransfer(s: Session, u: Unauthorized)
    requires Libraries(s) && HonestWallet(s) && BuiltWell(s, u)
    ensures var review := ReviewOf(s.d, RequestOf(u, BodyFor(s, u)));
      && (review.Ok? <==> forall o | o in s.outputs :: Committed(o))
      && review == Answer(s, u, BodyFor(s, u))
    ensures var sighash := s.d.sighash(BodyFor(s, u));
      var b := Authorize(s.sv, s.v, u, sighash, DeviceSigs(s.sv, s.ask, AlphasOf(u.built), sighash));
      b.Ok? && HasCoordinates(b.value) && VerifyBundleCrypto(s.v, s.sv.c, b.value, sighash).Ok?
  {
    var plan := SessionFacts(s, u);
    SessionReads(s, u, plan);
    DeviceAnswers(s, u, plan, BodyFor(s, u));
    NodeAccepts(s, u, plan, s.d.sighash(BodyFor(s, u)));
  }

  /** The failing input: a build with a memo that commits to 0 is refused at that output. */
  lemma ZeroMemoIsRefused(s: Session, u: Unauthorized, i: nat)
    requires Libraries(s) && HonestWallet(s) && BuiltWell(s, u) && i < |s.outputs|
    requires s.outputs[i].memoOpening.Some? && MemoCommit(s.sv.c, s.outputs[i].memoOpening.value) == 0 && s.outputs[i].memoCm == 0
    requires forall k | 0 <= k < i :: Committed(s.outputs[k])
    ensures ReviewOf(s.d, RequestOf(u, BodyFor(s, u))) == Err(ReviewError.MemoMismatch(i))
  {
    FirstIs(s.outputs, i);
    HonestTransfer(s, u);
  }

  lemma FirstIs(outputs: seq<OutputInfo>, i: nat)
    requires i < |outputs| && !Committed(outputs[i]) && forall k | 0 <= k < i :: Committed(outputs[k])
    ensures FirstUncommitted(outputs) == Some(i)
  {
    assert outputs[i] in outputs;
  }

  /** The body reads back as the built actions. */
  lemma SessionReads(s: Session, u: Unauthorized, plan: seq<Planned>)
    requires Libraries(s) && plan in PlansFor(s, u)
    requires forall b | b in u.built :: b.action.rk != IDENTITY && b.action.cvNet != IDENTITY
    ensures BodyCarries(s.d, BodyFor(s, u), s.now, ActionsOf(u.built))
  {
    SessionOnWire(s, u, plan);
    GoodIsWellFormed(u.built);
    BodyReadsBack(s.d, s.now, s.version, u.anchor, ActionsOf(u.built));
  }

  lemma DeviceAnswers(s: Session, u: Unauthorized, plan: seq<Planned>, body: bytes)
    requires Libraries(s) && 0 < |s.spends| && HonestDraws(s) && plan in PlansFor(s, u) && |s.outputs| <= ACTIONS
    requires forall i | 0 <= i < ACTIONS :: plan[i] == PlannedAt(s, i)
    requires BodyCarries(s.d, body, s.now, ActionsOf(u.built))
    ensures ReviewOf(s.d, RequestOf(u, body)) == Answer(s, u, body)
  {
    match FirstUncommitted(s.outputs)
    case None => DeviceAccepts(s, u, plan, body);
    case Some(i) => DeviceRefuses(s, u, plan, body, i);
  }

  /** The padded outputs commit to a memo where the given ones do. */
  lemma PaddingIsCommitted(s: Session, plan: seq<Planned>)
    requires HonestDraws(s) && s.now < TIMESTAMP_LIMIT && |s.outputs| <= ACTIONS == |plan|
    requires forall i | 0 <= i < ACTIONS :: plan[i] == PlannedAt(s, i)
    ensures forall i | 0 <= i < ACTIONS :: Committed(plan[i].output) <==> i < |s.outputs| ==> Committed(s.outputs[i])
  {
    forall i | 0 <= i < ACTIONS ensures Committed(plan[i].output) <==> i < |s.outputs| ==> Committed(s.outputs[i]) {
      assert plan[i] == PlannedAt(s, i);
    }
  }

  lemma NothingUncommitted(s: Session, plan: seq<Planned>)
    requires HonestDraws(s) && s.now < TIMESTAMP_LIMIT && |s.outputs| <= ACTIONS == |plan| && FirstUncommitted(s.outputs) == None
    requires forall i | 0 <= i < ACTIONS :: plan[i] == PlannedAt(s, i)
    ensures Committed(plan[0].output) && Committed(plan[1].output)
  {
    PaddingIsCommitted(s, plan);
    assert forall i | 0 <= i < |s.outputs| :: s.outputs[i] in s.outputs;
  }

  lemma FirstIsPlanned(s: Session, plan: seq<Planned>, i: nat)
    requires HonestDraws(s) && s.now < TIMESTAMP_LIMIT && |s.outputs| <= ACTIONS == |plan| && FirstUncommitted(s.outputs) == Some(i)
    requires forall i | 0 <= i < ACTIONS :: plan[i] == PlannedAt(s, i)
    ensures i < ACTIONS && !Committed(plan[i].output) && forall k | 0 <= k < i :: Committed(plan[k].output)
  {
    PaddingIsCommitted(s, plan);
  }

  lemma DeviceAccepts(s: Session, u: Unauthorized, plan: seq<Planned>, body: bytes)
    requires Libraries(s) && 0 < |s.spends| && HonestDraws(s) && plan in PlansFor(s, u) && |s.outputs| <= ACTIONS
    requires (forall i | 0 <= i < ACTIONS :: plan[i] == PlannedAt(s, i)) && FirstUncommitted(s.outputs) == None
    requires BodyCarries(s.d, body, s.now, ActionsOf(u.built))
    ensures ReviewOf(s.d, RequestOf(u, body)) == Ok(Review(s.now, Payments(s.d, Asked(s.outputs)),
      OwnValue(s.d, Asked(s.outputs)), s.d.sighash(body), SpendCount(AlphasOf(u.built))))
  {
    NothingUncommitted(s, plan);
    SessionActionsOk(s, u, plan, body);
    SessionShown(s, u, plan);
    ReviewExact(s.d, RequestOf(u, body), s.now, ActionsOf(u.built));
  }

  lemma DeviceRefuses(s: Session, u: Unauthorized, plan: seq<Planned>, body: bytes, i: nat)
    requires Libraries(s) && HonestDraws(s) && plan in PlansFor(s, u) && |s.outputs| <= ACTIONS
    requires (forall i | 0 <= i < ACTIONS :: plan[i] == PlannedAt(s, i)) && FirstUncommitted(s.outputs) == Some(i)
    requires BodyCarries(s.d, body, s.now, ActionsOf(u.built))
    ensures ReviewOf(s.d, RequestOf(u, body)) == Err(ReviewError.MemoMismatch(i))
  {
    FirstIsPlanned(s, plan, i);
    SessionFinding(s, u, plan, body, 0);
    SessionFinding(s, u, plan, body, i);
    MemoFaultAt(s.d, s.now, ActionsOf(u.built), RequestOf(u, body), i);
    ReviewOfCarried(s.d, RequestOf(u, body), s.now, ActionsOf(u.built));
  }

  lemma NodeAccepts(s: Session, u: Unauthorized, plan: seq<Planned>, sighash: bytes)
    requires Libraries(s) && BuiltWell(s, u) && plan in PlansFor(s, u)
    ensures var b := Authorize(s.sv, s.v, u, sighash, DeviceSigs(s.sv, s.ask, AlphasOf(u.built), sighash));
      b.Ok? && HasCoordinates(b.value) && VerifyBundleCrypto(s.v, s.sv.c, b.value, sighash).Ok?
  {
    SessionKeys(s, u, plan);
    SessionProves(s, u, plan);
    SessionBinds(s, u, plan);
    AuthorizedVerifies(s.sv, s.v, s.ask, u, sighash);
  }
}
