/** Building and authorising a bundle: what the community server does around the device. */
module Pipeline {
  import opened Widths
  import opened Field
  import opened Group
  import opened Bytes
  import opened Hashing
  import opened Notes
  import opened Merkle
  import opened NativeDecay
  import opened ActionCircuit
  import opened Balance
  import opened Bundles
  import opened Wire
  import opened NoteEncryption
  import opened Signer
  import opened ActionComplete

  datatype SpendInfo = SpendInfo(fvk: FullViewingKey, n: NoteWithSeed, position: nat, path: seq<Base>)

  datatype OutputInfo = OutputInfo(
    address: Address, value: u64, kind: NoteKind, expiryEpoch: u64, memoCm: Base, memoOpening: Option<MemoOpening>, memo: bytes)

  datatype BuildError =
    | TooManySpends | TooManyOutputs | Unbalanced(spent: nat, created: nat) | Overflow | NoteFromTheFuture
    | WrongCommunity | InvalidNote(error: NoteError) | MemoMismatch | Proof

  datatype AuthorizeError = SignatureCount(expected: nat, got: nat) | BadSignature(index: nat)

  /** The random values of one action. */
  datatype Dice = Dice(rseed: bytes, alpha: Scalar, rcv: Scalar, noise: Noise)

  /** A throwaway key with the random values of a dummy. */
  datatype Throwaway = Throwaway(ask: Scalar, fvk: FullViewingKey, d: Diversifier, rseed: bytes, rho: Base, path: seq<Base>)

  /** One real or dummy spend and one real or dummy output. */
  datatype Planned = Planned(spend: SpendInfo, ask: Option<Scalar>, output: OutputInfo, dice: Dice)

  /** What the server computes with: hashes, ciphers, the prover, which may fail, and the two signers. */
  datatype Server = Server(
    c: Crypto, x: Suite, prove: (seq<Instance>, seq<Inputs>) -> Option<bytes>,
    signSpend: (Scalar, bytes, nat) -> bytes, signBinding: (Scalar, bytes) -> bytes)

  /** `spendable_value` */
  function SpendableValue(n: Note, now: u64): Option<nat>
  {
    if now < n.tNote then None else Some(DecayWindowed(n.value, now - n.tNote))
  }

  /** The key pair of a throwaway key, as `full_viewing_key` derives it. */
  predicate KeyPair(c: Crypto, ask: Scalar, fvk: FullViewingKey) { ValidKey(c, fvk) && fvk.ak == Mul(ask, c.G) }

  predicate GoodThrowaway(c: Crypto, t: Throwaway)
  {
    && KeyPair(c, t.ask, t.fvk) && AddressOf(c, t.fvk, t.d).pkD != IDENTITY
    && |t.rseed| == 32 && |t.path| == MERKLE_DEPTH
  }

  /** No key has the identity as an address. */
  lemma AddressesArePoints(c: Crypto, fvk: FullViewingKey, d: Diversifier)
    requires NoScalarZeroDivisors() && ValidKey(c, fvk)
    ensures AddressOf(c, fvk, d).pkD != IDENTITY
  {
    if Mul(fvk.ivk, DiversifyHash(c, d)) == IDENTITY {
      MulInjective(fvk.ivk, 0, DiversifyHash(c, d));
    }
  }

  function DummySpend(c: Crypto, community: Base, now: u64, t: Throwaway): SpendInfo
    requires GoodThrowaway(c, t) && now < TIMESTAMP_LIMIT
  {
    var note := FromParts(c, community, community, 0, now, Normal, 0, AddressOf(c, t.fvk, t.d), t.rho, 0, t.rseed);
    SpendInfo(t.fvk, NoteWithSeed(note.value, t.rseed), 0, t.path)
  }

  function DummyOutput(c: Crypto, t: Throwaway): OutputInfo
  {
    OutputInfo(AddressOf(c, t.fvk, t.d), 0, Normal, 0, 0, None, seq(FREE_MEMO_SIZE, _ => 0))
  }

  /** One spend: it belongs to the community, is not from the future, and is added at its decayed value. */
  function AddWorth(total: nat, community: Base, now: u64, n: Note): Result<nat, BuildError>
  {
    if !InCommunity(n, community) then Err(WrongCommunity)
    else
      var worth := SpendableValue(n, now);
      if worth.None? then Err(NoteFromTheFuture)
      else if total + worth.value >= 0x1_0000_0000_0000_0000 then Err(Overflow)
      else Ok(total + worth.value)
  }

  /** The first loop of `build`: the decayed value of the spends. */
  function SpentTotal(community: Base, now: u64, spends: seq<SpendInfo>): Result<nat, BuildError>
  {
    if spends == [] then Ok(0)
    else
      var before := SpentTotal(community, now, spends[..|spends| - 1]);
      if before.Err? then before else AddWorth(before.value, community, now, spends[|spends| - 1].n.note)
  }

  predicate OpeningMatches(c: Crypto, o: OutputInfo)
  {
    if o.memoOpening.None? then o.memoCm == 0 else MemoCommit(c, o.memoOpening.value) == o.memoCm
  }

  /** The second loop: the created value, and the memos. */
  function CreatedTotal(c: Crypto, outputs: seq<OutputInfo>): Result<nat, BuildError>
  {
    if outputs == [] then Ok(0)
    else
      var before, o := CreatedTotal(c, outputs[..|outputs| - 1]), outputs[|outputs| - 1];
      if before.Err? then before
      else if before.value + o.value >= 0x1_0000_0000_0000_0000 then Err(Overflow)
      else if !OpeningMatches(c, o) then Err(BuildError.MemoMismatch)
      else Ok(before.value + o.value)
  }

  function PlanAt(c: Crypto, community: Base, now: u64, spends: seq<SpendInfo>, outputs: seq<OutputInfo>,
      dice: seq<Dice>, aside: seq<Throwaway>, i: nat): Planned
    requires i < |dice| == |aside| && (forall t | t in aside :: GoodThrowaway(c, t)) && now < TIMESTAMP_LIMIT
  {
    Planned(if i < |spends| then spends[i] else DummySpend(c, community, now, aside[i]),
            if i < |spends| then None else Some(aside[i].ask),
            if i < |outputs| then outputs[i] else DummyOutput(c, aside[i]), dice[i])
  }

  /** Both sides padded with dummies. */
  function Plan(c: Crypto, community: Base, now: u64, spends: seq<SpendInfo>, outputs: seq<OutputInfo>,
      dice: seq<Dice>, aside: seq<Throwaway>): (plan: seq<Planned>)
    requires |dice| == ACTIONS == |aside| && (forall t | t in aside :: GoodThrowaway(c, t)) && now < TIMESTAMP_LIMIT
    ensures |plan| == ACTIONS
  {
    seq(ACTIONS, i requires 0 <= i < ACTIONS => PlanAt(c, community, now, spends, outputs, dice, aside, i))
  }

  /** What the third loop pushes for one action. */
  datatype Built = Built(action: Action, inputs: Inputs, opening: OutputOpening, ask: Option<Scalar>)

  function OpeningOf(o: OutputInfo, rseed: bytes): OutputOpening
  {
    OutputOpening(o.address, o.value, o.kind, o.expiryEpoch, rseed, o.memoCm, o.memo, o.memoOpening)
  }

  function BuildAction(sv: Server, community: Base, now: u64, p: Planned, ovk: Option<bytes>): Result<Built, BuildError>
  {
    var c, spent, fvk := sv.c, p.spend.n.note, p.spend.fvk;
    var nf, decayed := Nullifier(c, fvk.nk, spent.rho, Commitment(c, spent)), SpendableValue(spent, now);
    if decayed.None? then Err(NoteFromTheFuture)
    else
      var created := FromParts(c, community, community, p.output.value, now, p.output.kind, p.output.expiryEpoch,
        p.output.address, nf, p.output.memoCm, p.dice.rseed);
      if created.Err? then Err(BuildError.InvalidNote(created.error))
      else
        var rk := Add(fvk.ak, Mul(p.dice.alpha, c.G));
        var cv := NativeCommitment(c, decayed.value - p.output.value, p.dice.rcv);
        var encrypted := Encrypt(c, sv.x, NoteWithSeed(created.value, p.dice.rseed), p.output.address, p.output.memo, ovk, cv, p.dice.noise);
        Ok(Built(Action(cv, nf, rk, Commitment(c, created.value), encrypted),
                 Inputs(spent, fvk, p.spend.position, p.spend.path, created.value, p.dice.rcv, p.dice.alpha),
                 OpeningOf(p.output, p.dice.rseed), p.ask))
  }

  function BuildActions(sv: Server, community: Base, now: u64, plan: seq<Planned>, ovk: Option<bytes>): (r: Result<seq<Built>, BuildError>)
    ensures r.Ok? ==> |r.value| == |plan|
  {
    if plan == [] then Ok([])
    else
      var before := BuildActions(sv, community, now, plan[..|plan| - 1], ovk);
      if before.Err? then before
      else
        var last := BuildAction(sv, community, now, plan[|plan| - 1], ovk);
        if last.Err? then Err(last.error) else Ok(before.value + [last.value])
  }

  /** A proven bundle without signatures. */
  datatype Unauthorized = Unauthorized(anchor: Base, now: u64, community: Base, built: seq<Built>, proof: bytes)

  function ActionsOf(built: seq<Built>): (s: seq<Action>)
    ensures |s| == |built|
  {
    seq(|built|, i requires 0 <= i < |built| => built[i].action)
  }

  function InputsOf(built: seq<Built>): (s: seq<Inputs>)
    ensures |s| == |built|
  {
    seq(|built|, i requires 0 <= i < |built| => built[i].inputs)
  }

  function OpeningsOf(built: seq<Built>): (s: seq<OutputOpening>)
    ensures |s| == |built|
  {
    seq(|built|, i requires 0 <= i < |built| => built[i].opening)
  }

  function RcvsOf(built: seq<Built>): (s: seq<Scalar>)
    ensures |s| == |built|
  {
    seq(|built|, i requires 0 <= i < |built| => built[i].inputs.rcv)
  }

  /** The rerandomisers of the real spends. */
  function AlphasOf(built: seq<Built>): (s: seq<Option<Scalar>>)
    ensures |s| == |built|
  {
    seq(|built|, i requires 0 <= i < |built| => if built[i].ask.None? then Some(built[i].inputs.alpha) else None)
  }

  /** What the checks before the padding answer. */
  function BuildCheck(c: Crypto, community: Base, now: u64, spends: seq<SpendInfo>, outputs: seq<OutputInfo>): Option<BuildError>
  {
    if |spends| > ACTIONS then Some(TooManySpends)
    else if |outputs| > ACTIONS then Some(TooManyOutputs)
    else if now >= TIMESTAMP_LIMIT then Some(BuildError.InvalidNote(TimestampTooLarge))
    else
      var spent := SpentTotal(community, now, spends);
      if spent.Err? then Some(spent.error)
      else
        var created := CreatedTotal(c, outputs);
        if created.Err? then Some(created.error)
        else if spent.value != created.value then Some(Unbalanced(spent.value, created.value))
        else None
  }

  /** `build` */
  function Build(sv: Server, community: Base, anchor: Base, now: u64, spends: seq<SpendInfo>, outputs: seq<OutputInfo>,
      ovk: Option<bytes>, dice: seq<Dice>, aside: seq<Throwaway>): Result<Unauthorized, BuildError>
    requires |dice| == ACTIONS == |aside| && forall t | t in aside :: GoodThrowaway(sv.c, t)
  {
    var refused := BuildCheck(sv.c, community, now, spends, outputs);
    if refused.Some? then Err(refused.value)
    else
      var built := BuildActions(sv, community, now, Plan(sv.c, community, now, spends, outputs, dice, aside), ovk);
      if built.Err? then Err(built.error)
      else
        var proof := sv.prove(InstancesFor(sv.c, community, anchor, now, built.value), InputsOf(built.value));
        if proof.None? then Err(BuildError.Proof) else Ok(Unauthorized(anchor, now, community, built.value, proof.value))
  }

  function InstancesFor(c: Crypto, community: Base, anchor: Base, now: u64, built: seq<Built>): (s: seq<Instance>)
    ensures |s| == |built|
  {
    seq(|built|, i requires 0 <= i < |built| => InstanceOf(c, community, anchor, built[i].action, now))
  }

  /** `signing_request` */
  function RequestOf(u: Unauthorized, body: bytes): SigningRequest
  {
    SigningRequest(body, OpeningsOf(u.built), AlphasOf(u.built))
  }

  // ---------------------------------------------------------------- signatures

  /** The device's side of `sign`: one signature for every alpha, in order. */
  function DeviceSigs(sv: Server, ask: Scalar, alphas: seq<Option<Scalar>>, sighash: bytes): seq<bytes>
  {
    if alphas == [] then []
    else
      var n := |alphas| - 1;
      var before := DeviceSigs(sv, ask, alphas[..n], sighash);
      if alphas[n].None? then before else before + [sv.signSpend(ReduceScalar(ask + alphas[n].value), sighash, n)]
  }

  function RealSpends(built: seq<Built>): nat
  {
    if built == [] then 0 else RealSpends(built[..|built| - 1]) + if built[|built| - 1].ask.None? then 1 else 0
  }

  /** Action `i` of `authorize`: a dummy is signed here, the next device signature is checked. */
  function SpendSig(sv: Server, v: Verifier, b: Built, i: nat, used: nat, sighash: bytes, device: seq<bytes>): Result<bytes, AuthorizeError>
    requires b.ask.None? ==> used < |device|
  {
    if b.ask.Some? then Ok(sv.signSpend(ReduceScalar(b.ask.value + b.inputs.alpha), sighash, i))
    else if v.spendAuth(b.action.rk, sighash, device[used]) then Ok(device[used])
    else Err(BadSignature(i))
  }

  /** The loop of `authorize` over the actions. */
  function SpendSigs(sv: Server, v: Verifier, built: seq<Built>, sighash: bytes, device: seq<bytes>): (r: Result<seq<bytes>, AuthorizeError>)
    requires RealSpends(built) <= |device|
    ensures r.Ok? ==> |r.value| == |built|
  {
    if built == [] then Ok([])
    else
      var n := |built| - 1;
      var before := SpendSigs(sv, v, built[..n], sighash, device);
      if before.Err? then before
      else
        var sig := SpendSig(sv, v, built[n], n, RealSpends(built[..n]), sighash, device);
        if sig.Err? then Err(sig.error) else Ok(before.value + [sig.value])
  }

  /** `authorize` */
  function Authorize(sv: Server, v: Verifier, u: Unauthorized, sighash: bytes, device: seq<bytes>): Result<Bundle, AuthorizeError>
  {
    if |device| != RealSpends(u.built) then Err(SignatureCount(RealSpends(u.built), |device|))
    else
      var sigs := SpendSigs(sv, v, u.built, sighash, device);
      if sigs.Err? then Err(sigs.error)
      else Ok(Bundle(u.anchor, u.now, u.community, ActionsOf(u.built), u.proof, sigs.value,
                     sv.signBinding(SumScalars(RcvsOf(u.built)), sighash)))
  }

  // ---------------------------------------------------------------- the loops

  /** The first error is the result. */
  lemma {:induction false} SpentFails(community: Base, now: u64, spends: seq<SpendInfo>, i: nat)
    requires i <= |spends| && SpentTotal(community, now, spends[..i]).Err?
    ensures SpentTotal(community, now, spends) == SpentTotal(community, now, spends[..i])
    decreases |spends| - i
  {
    if i < |spends| {
      assert spends[..i + 1][..i] == spends[..i];
      SpentFails(community, now, spends, i + 1);
    } else {
      assert spends[..i] == spends;
    }
  }

  method SumSpends(community: Base, now: u64, spends: seq<SpendInfo>) returns (r: Result<nat, BuildError>)
    ensures r == SpentTotal(community, now, spends)
  {
    var spent: nat := 0;
    for i := 0 to |spends|
      invariant SpentTotal(community, now, spends[..i]) == Ok(spent)
    {
      assert spends[..i + 1][..i] == spends[..i];
      var next := AddWorth(spent, community, now, spends[i].n.note);
      if next.Err? {
        SpentFails(community, now, spends, i + 1);
        return Err(next.error);
      }
      spent := next.value;
    }
    assert spends[..|spends|] == spends;
    return Ok(spent);
  }

  lemma {:induction false} CreatedFails(c: Crypto, outputs: seq<OutputInfo>, i: nat)
    requires i <= |outputs| && CreatedTotal(c, outputs[..i]).Err?
    ensures CreatedTotal(c, outputs) == CreatedTotal(c, outputs[..i])
    decreases |outputs| - i
  {
    if i < |outputs| {
      assert outputs[..i + 1][..i] == outputs[..i];
      CreatedFails(c, outputs, i + 1);
    } else {
      assert outputs[..i] == outputs;
    }
  }

  method SumCreated(c: Crypto, outputs: seq<OutputInfo>) returns (r: Result<nat, BuildError>)
    ensures r == CreatedTotal(c, outputs)
  {
    var created: nat := 0;
    for i := 0 to |outputs|
      invariant CreatedTotal(c, outputs[..i]) == Ok(created)
    {
      assert outputs[..i + 1][..i] == outputs[..i];
      var o := outputs[i];
      if created + o.value >= 0x1_0000_0000_0000_0000 || !OpeningMatches(c, o) {
        CreatedFails(c, outputs, i + 1);
        return Err(if created + o.value >= 0x1_0000_0000_0000_0000 then Overflow else BuildError.MemoMismatch);
      }
      created := created + o.value;
    }
    assert outputs[..|outputs|] == outputs;
    return Ok(created);
  }

  /** Pads both sides with dummies until there is one spend and one output per action. */
  method PadPlan(c: Crypto, community: Base, now: u64, spends: seq<SpendInfo>, outputs: seq<OutputInfo>,
      dice: seq<Dice>, aside: seq<Throwaway>) returns (plan: seq<Planned>)
    requires |dice| == ACTIONS == |aside| && (forall t | t in aside :: GoodThrowaway(c, t)) && now < TIMESTAMP_LIMIT
    requires |spends| <= ACTIONS && |outputs| <= ACTIONS
    ensures plan == Plan(c, community, now, spends, outputs, dice, aside)
  {
    var padded := seq(|spends|, i requires 0 <= i < |spends| => (spends[i], None));
    while |padded| < ACTIONS
      invariant |spends| <= |padded| <= ACTIONS
      invariant forall i | 0 <= i < |padded| ::
        padded[i] == if i < |spends| then (spends[i], None) else (DummySpend(c, community, now, aside[i]), Some(aside[i].ask))
    {
      var t := aside[|padded|];
      padded := padded + [(DummySpend(c, community, now, t), Some(t.ask))];
    }
    var created := outputs;
    while |created| < ACTIONS
      invariant |outputs| <= |created| <= ACTIONS
      invariant forall i | 0 <= i < |created| :: created[i] == if i < |outputs| then outputs[i] else DummyOutput(c, aside[i])
    {
      created := created + [DummyOutput(c, aside[|created|])];
    }
    plan := seq(ACTIONS, i requires 0 <= i < ACTIONS => Planned(padded[i].0, padded[i].1, created[i], dice[i]));
  }

  lemma {:induction false} BuildFails(sv: Server, community: Base, now: u64, plan: seq<Planned>, ovk: Option<bytes>, i: nat)
    requires i <= |plan| && BuildActions(sv, community, now, plan[..i], ovk).Err?
    ensures BuildActions(sv, community, now, plan, ovk) == BuildActions(sv, community, now, plan[..i], ovk)
    decreases |plan| - i
  {
    if i < |plan| {
      assert plan[..i + 1][..i] == plan[..i];
      BuildFails(sv, community, now, plan, ovk, i + 1);
    } else {
      assert plan[..i] == plan;
    }
  }

  lemma BuildSnoc(sv: Server, community: Base, now: u64, plan: seq<Planned>, ovk: Option<bytes>, i: nat)
    requires i < |plan| && BuildActions(sv, community, now, plan[..i], ovk).Ok?
    ensures BuildActions(sv, community, now, plan[..i + 1], ovk) ==
      var last := BuildAction(sv, community, now, plan[i], ovk);
      if last.Err? then Err(last.error) else Ok(BuildActions(sv, community, now, plan[..i], ovk).value + [last.value])
  {
    assert plan[..i + 1][..i] == plan[..i];
  }

  /** The third loop of `build`: one action after the other. */
  method BuildEach(sv: Server, community: Base, now: u64, plan: seq<Planned>, ovk: Option<bytes>) returns (r: Result<seq<Built>, BuildError>)
    ensures r == BuildActions(sv, community, now, plan, ovk)
  {
    var built: seq<Built> := [];
    for i := 0 to |plan|
      invariant BuildActions(sv, community, now, plan[..i], ovk) == Ok(built)
    {
      BuildSnoc(sv, community, now, plan, ovk, i);
      var next := BuildAction(sv, community, now, plan[i], ovk);
      if next.Err? {
        BuildFails(sv, community, now, plan, ovk, i + 1);
        return Err(next.error);
      }
      built := built + [next.value];
    }
    assert plan[..|plan|] == plan;
    return Ok(built);
  }

  /** `build`, loop by loop. */
  method BuildBundle(sv: Server, community: Base, anchor: Base, now: u64, spends: seq<SpendInfo>, outputs: seq<OutputInfo>,
      ovk: Option<bytes>, dice: seq<Dice>, aside: seq<Throwaway>) returns (r: Result<Unauthorized, BuildError>)
    requires |dice| == ACTIONS == |aside| && forall t | t in aside :: GoodThrowaway(sv.c, t)
    ensures r == Build(sv, community, anchor, now, spends, outputs, ovk, dice, aside)
  {
    if |spends| > ACTIONS {
      return Err(TooManySpends);
    }
    if |outputs| > ACTIONS {
      return Err(TooManyOutputs);
    }
    if now >= TIMESTAMP_LIMIT {
      return Err(BuildError.InvalidNote(TimestampTooLarge));
    }
    var spent := SumSpends(community, now, spends);
    if spent.Err? {
      return Err(spent.error);
    }
    var created := SumCreated(sv.c, outputs);
    if created.Err? {
      return Err(created.error);
    }
    if spent.value != created.value {
      return Err(Unbalanced(spent.value, created.value));
    }
    var plan := PadPlan(sv.c, community, now, spends, outputs, dice, aside);
    var built := BuildEach(sv, community, now, plan, ovk);
    if built.Err? {
      return Err(built.error);
    }
    var proof := sv.prove(InstancesFor(sv.c, community, anchor, now, built.value), InputsOf(built.value));
    if proof.None? {
      return Err(BuildError.Proof);
    }
    return Ok(Unauthorized(anchor, now, community, built.value, proof.value));
  }

  lemma {:induction false} SigsFail(sv: Server, v: Verifier, built: seq<Built>, sighash: bytes, device: seq<bytes>, i: nat)
    requires i <= |built| && RealSpends(built[..i]) <= |device| && RealSpends(built) <= |device|
    requires SpendSigs(sv, v, built[..i], sighash, device).Err?
    ensures SpendSigs(sv, v, built, sighash, device) == SpendSigs(sv, v, built[..i], sighash, device)
    decreases |built| - i
  {
    if i < |built| {
      assert built[..i + 1][..i] == built[..i];
      FewerSpends(built, i + 1);
      SigsFail(sv, v, built, sighash, device, i + 1);
    } else {
      assert built[..i] == built;
    }
  }

  /** A real spend is counted. */
  lemma EnoughSigs(built: seq<Built>, i: nat)
    requires i < |built|
    ensures RealSpends(built[..i]) + (if built[i].ask.None? then 1 else 0) == RealSpends(built[..i + 1]) <= RealSpends(built)
  {
    assert built[..i + 1][..i] == built[..i];
    FewerSpends(built, i + 1);
  }

  lemma {:induction false} FewerSpends(built: seq<Built>, i: nat)
    requires i <= |built|
    ensures RealSpends(built[..i]) <= RealSpends(built)
    decreases |built|
  {
    if i < |built| {
      FewerSpends(built[..|built| - 1], i);
      assert built[..|built| - 1][..i] == built[..i];
    } else {
      assert built[..i] == built;
    }
  }

  /** One turn of the loop of `authorize`. */
  lemma SpendSigsSnoc(sv: Server, v: Verifier, built: seq<Built>, sighash: bytes, device: seq<bytes>, i: nat)
    requires i < |built| && RealSpends(built[..i]) <= |device| && (built[i].ask.None? ==> RealSpends(built[..i]) < |device|)
    ensures RealSpends(built[..i + 1]) == RealSpends(built[..i]) + (if built[i].ask.None? then 1 else 0) <= |device|
    ensures var before := SpendSigs(sv, v, built[..i], sighash, device);
      var last := SpendSig(sv, v, built[i], i, RealSpends(built[..i]), sighash, device);
      before.Ok? ==>
        (SpendSigs(sv, v, built[..i + 1], sighash, device) == if last.Err? then Err(last.error) else Ok(before.value + [last.value]))
  {
    assert built[..i + 1][..i] == built[..i];
  }

  /** `authorize`: the loop takes the device signatures one by one. */
  method AuthorizeBundle(sv: Server, v: Verifier, u: Unauthorized, sighash: bytes, device: seq<bytes>) returns (r: Result<Bundle, AuthorizeError>)
    ensures r == Authorize(sv, v, u, sighash, device)
  {
    var expected := RealSpends(u.built);
    if |device| != expected {
      return Err(SignatureCount(expected, |device|));
    }
    var used, sigs: seq<bytes> := 0, [];
    for i := 0 to |u.built|
      invariant used == RealSpends(u.built[..i]) <= |device| && SpendSigs(sv, v, u.built[..i], sighash, device) == Ok(sigs)
    {
      EnoughSigs(u.built, i);
      SpendSigsSnoc(sv, v, u.built, sighash, device, i);
      var sig := SpendSig(sv, v, u.built[i], i, used, sighash, device);
      if sig.Err? {
        SigsFail(sv, v, u.built, sighash, device, i + 1);
        return Err(sig.error);
      }
      used := if u.built[i].ask.None? then used + 1 else used;
      sigs := sigs + [sig.value];
    }
    assert u.built[..|u.built|] == u.built;
    var binding := sv.signBinding(SumScalars(RcvsOf(u.built)), sighash);
    return Ok(Bundle(u.anchor, u.now, u.community, ActionsOf(u.built), u.proof, sigs, binding));
  }
}
