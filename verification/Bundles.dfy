/** The shielded bundle and the part of its verification that does not need the ledger. */
module Bundles {
  import opened Group
  import opened Bytes
  import opened Hashing
  import opened Notes
  import opened ActionCircuit
  import opened Balance

  const ACTIONS: nat := 2
  const PROOF_SIZE: nat := 7936

  datatype EncryptedNote = EncryptedNote(epkBytes: bytes, cm: Base, encCiphertext: bytes, outCiphertext: bytes)

  datatype Action = Action(cvNet: Point, nullifier: Base, rk: Point, cm: Base, encrypted: EncryptedNote)

  datatype Bundle = Bundle(
    anchor: Base, now: u64, community: Base, actions: seq<Action>, proof: bytes, spendAuthSigs: seq<bytes>, bindingSig: bytes)

  datatype VerifyError =
    | WrongActionCount | TreeFull | UnknownAnchor | DoubleSpend(nf: Base) | Proof | SpendAuth(index: nat) | Binding

  /** The three verification algorithms, as the libraries provide them. */
  datatype Verifier = Verifier(
    spendAuth: (Point, bytes, bytes) -> bool,
    binding: (Point, bytes, bytes) -> bool,
    proof: (seq<Instance>, bytes) -> bool)

  function InstanceOf(c: Crypto, community: Base, anchor: Base, a: Action, now: u64): Instance
  {
    Instance(anchor, a.nullifier, c.X(a.rk), c.Y(a.rk), a.cm, c.X(a.cvNet), c.Y(a.cvNet), now, community)
  }

  /** Public inputs of every action, in proof order. */
  function Instances(c: Crypto, b: Bundle): (insts: seq<Instance>)
    ensures |insts| == |b.actions|
  {
    seq(|b.actions|, i requires 0 <= i < |b.actions| => InstanceOf(c, b.community, b.anchor, b.actions[i], b.now))
  }

  function Cvs(actions: seq<Action>): (s: seq<Point>)
    ensures |s| == |actions|
  {
    seq(|actions|, i requires 0 <= i < |actions| => actions[i].cvNet)
  }

  function Nullifiers(actions: seq<Action>): (s: seq<Base>)
    ensures |s| == |actions|
  {
    seq(|actions|, i requires 0 <= i < |actions| => actions[i].nullifier)
  }

  function Commitments(actions: seq<Action>): (s: seq<Base>)
    ensures |s| == |actions|
  {
    seq(|actions|, i requires 0 <= i < |actions| => actions[i].cm)
  }

  predicate SpendSigned(v: Verifier, a: Action, sig: bytes, sighash: bytes)
  {
    a.rk != IDENTITY && v.spendAuth(a.rk, sighash, sig)
  }

  /** The first action from `i` on whose spend signature does not verify. */
  function FirstUnsigned(v: Verifier, actions: seq<Action>, sigs: seq<bytes>, sighash: bytes, i: nat): (r: Option<nat>)
    requires i <= |actions| == |sigs|
    ensures r.None? <==> forall k | i <= k < |actions| :: SpendSigned(v, actions[k], sigs[k], sighash)
    ensures r.Some? ==> i <= r.value < |actions| && !SpendSigned(v, actions[r.value], sigs[r.value], sighash)
    ensures r.Some? ==> forall k | i <= k < r.value :: SpendSigned(v, actions[k], sigs[k], sighash)
    decreases |actions| - i
  {
    if i == |actions| then None
    else if !SpendSigned(v, actions[i], sigs[i], sighash) then Some(i)
    else FirstUnsigned(v, actions, sigs, sighash, i + 1)
  }

  /** A value commitment without coordinates stops the verifier; the wire format refuses it. */
  predicate HasCoordinates(b: Bundle)
  {
    forall i | 0 <= i < |b.actions| :: b.actions[i].cvNet != IDENTITY
  }

  /** `verify_bundle_crypto` */
  function VerifyBundleCrypto(v: Verifier, c: Crypto, b: Bundle, sighash: bytes): (r: Result<(), VerifyError>)
    requires HasCoordinates(b)
    ensures r.Ok? <==>
      && |b.actions| == ACTIONS && |b.spendAuthSigs| == ACTIONS && |b.proof| == PROOF_SIZE
      && (forall i | 0 <= i < ACTIONS :: SpendSigned(v, b.actions[i], b.spendAuthSigs[i], sighash))
      && v.binding(SumPoints(Cvs(b.actions)), sighash, b.bindingSig)
      && v.proof(Instances(c, b), b.proof)
  {
    if |b.actions| != ACTIONS || |b.spendAuthSigs| != ACTIONS then Err(WrongActionCount)
    else if |b.proof| != PROOF_SIZE then Err(Proof)
    else
      var unsigned := FirstUnsigned(v, b.actions, b.spendAuthSigs, sighash, 0);
      if unsigned.Some? then Err(SpendAuth(unsigned.value))
      else if !v.binding(SumPoints(Cvs(b.actions)), sighash, b.bindingSig) then Err(Binding)
      else if !v.proof(Instances(c, b), b.proof) then Err(Proof)
      else Ok(())
  }

  // ---------------------------------------------------------------- idealised soundness

  /** What an accepted proof or binding signature was made from. */
  datatype Extractor = Extractor(
    witnesses: (seq<Instance>, bytes) -> seq<Witness>,
    bindingKey: (Point, bytes, bytes) -> Scalar)

  function Zip(insts: seq<Instance>, ws: seq<Witness>): (h: seq<Spend>)
    requires |insts| == |ws|
    ensures |h| == |insts|
  {
    seq(|insts|, i requires 0 <= i < |insts| => Spend(insts[i], ws[i]))
  }

  /** Proofs and binding signatures show knowledge: a satisfying witness, and the key of the sum. */
  ghost predicate SoundVerifier(v: Verifier, c: Crypto, e: Extractor)
  {
    && (forall insts, proof | v.proof(insts, proof) ::
          |e.witnesses(insts, proof)| == |insts| && AllHold(c, Zip(insts, e.witnesses(insts, proof))))
    && (forall p, m, s | v.binding(p, m, s) :: p == Mul(e.bindingKey(p, m, s), c.R))
  }

  /** The actions of a bundle with the witnesses its proof was made from. */
  function SpendsOf(c: Crypto, e: Extractor, b: Bundle): seq<Spend>
  {
    var insts, ws := Instances(c, b), e.witnesses(Instances(c, b), b.proof);
    if |insts| == |ws| then Zip(insts, ws) else []
  }

  function BindingKeyOf(e: Extractor, b: Bundle, sighash: bytes): Scalar
  {
    e.bindingKey(SumPoints(Cvs(b.actions)), sighash, b.bindingSig)
  }

  /** Actions all of whose hash queries are known. */
  ghost function Computed(c: Crypto, known: Known): iset<Spend>
  {
    iset r: Spend | WitnessKnown(c, known, r.inst, r.x)
  }

  /** Everything the parties of a bundle computed: no collision and no relation among it. */
  ghost predicate BundleKnown(c: Crypto, known: Known, e: Extractor, b: Bundle, sighash: bytes)
  {
    var h := SpendsOf(c, e, b);
    && (forall r | r in h :: r in Computed(c, known))
    && NoBundleRelation(c, Nets(h), Rcvs(h), BindingKeyOf(e, b, sighash))
  }

  /** An accepted bundle creates exactly what is left of what it spends. */
  lemma AcceptedConserves(v: Verifier, c: Crypto, known: Known, e: Extractor, b: Bundle, sighash: bytes)
    requires Field.NoZeroDivisors() && CoordinatesInjective(c) && SoundVerifier(v, c, e)
    requires HasCoordinates(b) && VerifyBundleCrypto(v, c, b, sighash).Ok? && BundleKnown(c, known, e, b, sighash)
    ensures |SpendsOf(c, e, b)| == ACTIONS && AllHold(c, SpendsOf(c, e, b))
    ensures forall i | 0 <= i < ACTIONS :: SpendsOf(c, e, b)[i].inst == Instances(c, b)[i]
    ensures Sum(Decayed, SpendsOf(c, e, b)) == Sum(Created, SpendsOf(c, e, b)) <= Sum(Spent, SpendsOf(c, e, b))
  {
    var h, cvs := SpendsOf(c, e, b), Cvs(b.actions);
    forall i | 0 <= i < |h| ensures cvs[i] == ValueCommitment(c, Nets(h)[i], Rcvs(h)[i]) {
      assert h[i] in Satisfying(c);
      SamePoint(c, cvs[i], ValueCommitment(c, h[i].x.Net(), h[i].x.rcv));
    }
    BindingBalances(c, Nets(h), Rcvs(h), cvs, BindingKeyOf(e, b, sighash));
    BundleConservation(c, h);
  }
}
