/** Completeness of the action circuit: an honest spend of a well-made note always has a witness. */
module ActionComplete {
  import opened Widths
  import opened Field
  import opened Group
  import opened Bytes
  import opened Hashing
  import opened Notes
  import opened Merkle
  import opened NativeDecay
  import opened ActionCircuit
  import opened Balance
  import DecayChip

  /** The private inputs, as `ActionSliceCircuit::new` takes them. */
  datatype Inputs = Inputs(
    spent: Note, fvk: FullViewingKey, position: nat, path: seq<Base>, created: Note, rcv: Scalar, alpha: Scalar)

  /** The spent note lies at an address `g_d`, `[ivk] g_d` of the key. */
  predicate OwnNote(c: Crypto, n: Note, fvk: FullViewingKey, gD: Point)
  {
    && gD != IDENTITY && (n.gdX, n.gdY) == c.coordinates(gD)
    && (n.pkdX, n.pkdY) == c.coordinates(Mul(fvk.ivk, gD)) && ValidKey(c, fvk)
  }

  /** The created note lies at some address. */
  predicate PlacedNote(c: Crypto, n: Note, gD: Point, pkD: Point)
  {
    gD != IDENTITY && pkD != IDENTITY && (n.gdX, n.gdY) == c.coordinates(gD) && (n.pkdX, n.pkdY) == c.coordinates(pkD)
  }

  predicate InCommunity(n: Note, community: Base) { n.community == community && n.coinCommunity == community }

  /** What an honest wallet puts into an action. */
  predicate Honest(c: Crypto, i: Inputs, community: Base, anchor: Base, now: u64)
  {
    && InWidths(i.spent) && InWidths(i.created) && InCommunity(i.spent, community) && InCommunity(i.created, community)
    && i.spent.tNote <= now && i.created.tNote == now
    && i.created.rho == Nullifier(c, i.fvk.nk, i.spent.rho, Commitment(c, i.spent))
    && i.position < MAX_LEAVES && |i.path| == MERKLE_DEPTH
    && (i.spent.value == 0 || MerkleRoot(c, Commitment(c, i.spent), i.position, i.path) == anchor)
  }

  function NetOf(i: Inputs, now: u64): int
    requires i.spent.tNote <= now
  {
    DecayWindowed(i.spent.value, now - i.spent.tNote) - i.created.value
  }

  /** The public inputs of the action. */
  function PublicOf(c: Crypto, i: Inputs, community: Base, anchor: Base, now: u64): Instance
    requires i.spent.tNote <= now
  {
    var rk, cv := Add(i.fvk.ak, Mul(i.alpha, c.G)), ValueCommitment(c, NetOf(i, now), i.rcv);
    Instance(anchor, Nullifier(c, i.fvk.nk, i.spent.rho, Commitment(c, i.spent)), c.X(rk), c.Y(rk), Commitment(c, i.created),
             c.X(cv), c.Y(cv), now, community)
  }

  /** The assigned cells are those of the inputs. */
  predicate Fills(c: Crypto, i: Inputs, w: Witness)
  {
    && w.value == i.spent.value && w.tNote == i.spent.tNote && w.kind == KindNumber(i.spent.kind) && w.expiry == i.spent.expiryEpoch
    && c.coordinates(w.gD) == (i.spent.gdX, i.spent.gdY) && w.rho == i.spent.rho && w.psi == i.spent.psi
    && w.memoCm == i.spent.memoCm && w.rcm == i.spent.rcm
    && w.ak == i.fvk.ak && w.nk == i.fvk.nk && w.rivk == i.fvk.rivk && w.leafPos == i.position && w.path == i.path
    && w.newValue == i.created.value && w.newKind == KindNumber(i.created.kind) && w.newExpiry == i.created.expiryEpoch
    && c.coordinates(w.newGd) == (i.created.gdX, i.created.gdY) && c.coordinates(w.newPkD) == (i.created.pkdX, i.created.pkdY)
    && w.newPsi == i.created.psi && w.newMemoCm == i.created.memoCm && w.newRcm == i.created.rcm
    && w.rcv == i.rcv && w.alpha == i.alpha
  }

  /** Magnitude and sign of a net value, as the circuit assigns them. */
  function Magnitude(decayed: nat, vNew: nat): nat { if decayed >= vNew then decayed - vNew else vNew - decayed }
  function Sign(decayed: nat, vNew: nat): nat { if decayed >= vNew then 1 else P - 1 }

  lemma NetComplete(decayed: nat, vNew: nat, magnitude: nat, sign: nat, vOld: Base, root: Base, anchor: Base)
    requires decayed < VALUE_LIMIT && vNew < VALUE_LIMIT && (vOld == 0 || root == anchor)
    requires magnitude == Magnitude(decayed, vNew) && sign == Sign(decayed, vNew)
    ensures ActionGate(decayed, vNew, magnitude, sign, vOld, root, anchor) && ShortScalar(magnitude, sign)
    ensures (if sign == 1 then magnitude else 0 - magnitude) == decayed - vNew
  {
    RootsMeet(vOld, root, anchor);
    if decayed < vNew {
      MinusOne(decayed - vNew, magnitude);
    } else {
      TimesIsProduct(magnitude, 1);
      TimesIsProduct(1, 1);
    }
  }

  lemma RootsMeet(v: Base, root: Base, anchor: Base)
    requires v == 0 || root == anchor
    ensures Zero(Times(v, root as int - anchor))
  {
    TimesZero(v);
  }

  lemma MinusOne(net: int, magnitude: nat)
    requires net == 0 - magnitude
    ensures Zero(net - Times(magnitude, P - 1)) && Zero(Times(P - 1, P - 1) - 1)
  {
    TimesIsProduct(magnitude, P - 1);
    TimesIsProduct(P - 1, P - 1);
    assert net - magnitude * (P - 1) == 0 - magnitude * 0x40000000000000000000000000000000224698fc094cf91b992d30ed00000001;
    MultipleOfP(0, magnitude);
  }

  /** The cells of a note satisfy the note chip. */
  lemma CellsComplete(n: Note, cells: NoteCells)
    requires InWidths(n)
    requires cells == NoteCells(n.community, n.coinCommunity, n.value, n.tNote, KindNumber(n.kind), n.expiryEpoch, n.gdX, n.gdY,
      n.pkdX, n.pkdY, n.rho, n.psi, n.memoCm, n.rcm, PackAmount(n.value, n.tNote), PackMeta(KindNumber(n.kind), n.expiryEpoch))
    ensures CommitHolds(cells) && Elements(cells) == CommitElements(n)
  {
    CommitExact(cells);
  }

  /** The witness an honest prover assigns. */
  ghost function WitnessOf(i: Inputs, gD: Point, newGd: Point, newPkD: Point, decayed: Base,
      chain: DecayChip.ChainCells, tail: DecayChip.TailCells, magnitude: Base, sign: Base): Witness
    requires InWidths(i.spent) && InWidths(i.created)
  {
    var s, n := i.spent, i.created;
    Witness(s.value, s.tNote, KindNumber(s.kind), s.expiryEpoch, gD, s.rho, s.psi, s.memoCm, s.rcm, i.fvk.ak, i.fvk.nk, i.fvk.rivk,
      i.position, i.path, n.value, newGd, newPkD, KindNumber(n.kind), n.expiryEpoch, n.psi, n.memoCm, n.rcm, i.rcv, i.alpha,
      PackAmount(s.value, s.tNote), PackMeta(KindNumber(s.kind), s.expiryEpoch), PackAmount(n.value, n.tNote),
      PackMeta(KindNumber(n.kind), n.expiryEpoch), decayed, chain, tail, magnitude, sign)
  }

  lemma OldComplete(c: Crypto, i: Inputs, inst: Instance, w: Witness)
    requires InWidths(i.spent) && InCommunity(i.spent, inst.community) && OwnNote(c, i.spent, i.fvk, w.gD) && Fills(c, i, w)
    requires w.amount == PackAmount(i.spent.value, i.spent.tNote) && w.meta == PackMeta(KindNumber(i.spent.kind), i.spent.expiryEpoch)
    ensures CommitHolds(w.Old(c, inst)) && Elements(w.Old(c, inst)) == CommitElements(i.spent)
    ensures w.Nf(c, inst) == Nullifier(c, i.fvk.nk, i.spent.rho, Commitment(c, i.spent))
  {
    CellsComplete(i.spent, w.Old(c, inst));
  }

  lemma NewComplete(c: Crypto, i: Inputs, inst: Instance, w: Witness)
    requires InWidths(i.created) && InCommunity(i.created, inst.community) && Fills(c, i, w)
    requires i.created.tNote == inst.now && i.created.rho == w.Nf(c, inst)
    requires w.newAmount == PackAmount(i.created.value, i.created.tNote)
    requires w.newMeta == PackMeta(KindNumber(i.created.kind), i.created.expiryEpoch)
    ensures CommitHolds(w.New(c, inst)) && Elements(w.New(c, inst)) == CommitElements(i.created)
  {
    CellsComplete(i.created, w.New(c, inst));
  }

  lemma WitnessFills(c: Crypto, i: Inputs, w: Witness, gD: Point, newGd: Point, newPkD: Point, decayed: Base,
      chain: DecayChip.ChainCells, tail: DecayChip.TailCells, magnitude: Base, sign: Base)
    requires InWidths(i.spent) && InWidths(i.created) && OwnNote(c, i.spent, i.fvk, gD) && PlacedNote(c, i.created, newGd, newPkD)
    requires w == WitnessOf(i, gD, newGd, newPkD, decayed, chain, tail, magnitude, sign)
    ensures Fills(c, i, w)
  {}

  lemma SameChip(now: nat, value: nat, tNote: nat, decayed: nat, chain: DecayChip.ChainCells, tail: DecayChip.TailCells, now': Base, w: Witness)
    requires DecayChip.ChipHolds(true, now, value, tNote, decayed, chain, tail)
    requires now == now' && value == w.value && tNote == w.tNote && decayed == w.decayed && chain == w.chain && tail == w.tail
    ensures DecayChip.ChipHolds(true, now', w.value, w.tNote, w.decayed, w.chain, w.tail)
  {}

  /** Cells filled with the native values. */
  predicate NativeCells(i: Inputs, now: u64, w: Witness)
    requires i.spent.tNote <= now && i.spent.value < VALUE_LIMIT && i.created.value < VALUE_LIMIT
  {
    && w.amount == PackAmount(i.spent.value, i.spent.tNote) && w.meta == PackMeta(KindNumber(i.spent.kind), i.spent.expiryEpoch)
    && w.newAmount == PackAmount(i.created.value, i.created.tNote)
    && w.newMeta == PackMeta(KindNumber(i.created.kind), i.created.expiryEpoch)
    && w.decayed == DecayWindowed(i.spent.value, now - i.spent.tNote) && w.decayed <= i.spent.value
    && w.magnitude == Magnitude(w.decayed, w.newValue) && w.sign == Sign(w.decayed, w.newValue)
  }

  lemma NativeCellsHold(c: Crypto, i: Inputs, community: Base, anchor: Base, now: u64, w: Witness)
    requires Honest(c, i, community, anchor, now) && OwnNote(c, i.spent, i.fvk, w.gD) && PlacedNote(c, i.created, w.newGd, w.newPkD)
    requires Fills(c, i, w) && NativeCells(i, now, w)
    requires DecayChip.ChipHolds(true, now, w.value, w.tNote, w.decayed, w.chain, w.tail)
    ensures Spend(PublicOf(c, i, community, anchor, now), w) in Satisfying(c)
  {
    NativeNotes(c, i, community, anchor, now, w);
    var inst := PublicOf(c, i, community, anchor, now);
    NativeNet(i, now, w);
    NativeGate(i, now, w, w.AnchorRoot(c, inst), inst.anchor);
    AddCommutes(i.fvk.ak, Mul(i.alpha, c.G));
  }

  lemma NativeNotes(c: Crypto, i: Inputs, community: Base, anchor: Base, now: u64, w: Witness)
    requires Honest(c, i, community, anchor, now) && OwnNote(c, i.spent, i.fvk, w.gD)
    requires Fills(c, i, w) && NativeCells(i, now, w)
    ensures var inst := PublicOf(c, i, community, anchor, now);
      && CommitHolds(w.Old(c, inst)) && CommitHolds(w.New(c, inst))
      && inst.nf == w.Nf(c, inst) && inst.cmNew == w.CmNew(c, inst)
      && (w.value == 0 || w.AnchorRoot(c, inst) == anchor)
  {
    var inst := PublicOf(c, i, community, anchor, now);
    OldComplete(c, i, inst, w);
    NewComplete(c, i, inst, w);
  }

  lemma NativeNet(i: Inputs, now: u64, w: Witness)
    requires i.spent.tNote <= now && i.spent.value < VALUE_LIMIT && i.created.value < VALUE_LIMIT
    requires NativeCells(i, now, w) && w.newValue == i.created.value
    ensures w.Net() == NetOf(i, now)
  {}

  lemma NativeGate(i: Inputs, now: u64, w: Witness, root: Base, anchor: Base)
    requires i.spent.tNote <= now && i.spent.value < VALUE_LIMIT && i.created.value < VALUE_LIMIT
    requires NativeCells(i, now, w) && w.newValue == i.created.value && (w.value == 0 || root == anchor)
    ensures ActionGate(w.decayed, w.newValue, w.magnitude, w.sign, w.value, root, anchor)
    ensures ShortScalar(w.magnitude, w.sign)
  {
    NetComplete(w.decayed, w.newValue, w.magnitude, w.sign, w.value, root, anchor);
  }

  /** The native decay of the spent value fills the chip. */
  lemma FilledWitness(c: Crypto, i: Inputs, now: u64, gD: Point, newGd: Point, newPkD: Point) returns (w: Witness)
    requires InWidths(i.spent) && InWidths(i.created) && i.spent.tNote <= now < TIMESTAMP_LIMIT
    requires OwnNote(c, i.spent, i.fvk, gD) && PlacedNote(c, i.created, newGd, newPkD)
    ensures w.gD == gD && w.newGd == newGd && w.newPkD == newPkD && Fills(c, i, w) && NativeCells(i, now, w)
    ensures DecayChip.ChipHolds(true, now, w.value, w.tNote, w.decayed, w.chain, w.tail)
  {
    var value, duration := i.spent.value, now - i.spent.tNote;
    var decayed := DecayWindowed(value, duration);
    DecayNeverGains(value, duration);
    var chain, tail := DecayChip.DecayChipComplete(true, now, value, i.spent.tNote);
    var magnitude, sign := Magnitude(decayed, i.created.value), Sign(decayed, i.created.value);
    w := WitnessOf(i, gD, newGd, newPkD, decayed, chain, tail, magnitude, sign);
    WitnessFills(c, i, w, gD, newGd, newPkD, decayed, chain, tail, magnitude, sign);
    WitnessIsNative(i, now, w, gD, newGd, newPkD, decayed, chain, tail, magnitude, sign);
    SameChip(now, value, i.spent.tNote, decayed, chain, tail, now, w);
  }

  lemma WitnessIsNative(i: Inputs, now: u64, w: Witness, gD: Point, newGd: Point, newPkD: Point, decayed: Base,
      chain: DecayChip.ChainCells, tail: DecayChip.TailCells, magnitude: Base, sign: Base)
    requires InWidths(i.spent) && InWidths(i.created) && i.spent.tNote <= now
    requires w == WitnessOf(i, gD, newGd, newPkD, decayed, chain, tail, magnitude, sign)
    requires decayed == DecayWindowed(i.spent.value, now - i.spent.tNote) && decayed <= i.spent.value
    requires magnitude == Magnitude(decayed, i.created.value) && sign == Sign(decayed, i.created.value)
    ensures NativeCells(i, now, w)
  {}

  /** Completeness: the native values of an honest action satisfy the circuit. */
  lemma ActionHasWitness(c: Crypto, i: Inputs, community: Base, anchor: Base, now: u64, gD: Point, newGd: Point, newPkD: Point)
    returns (w: Witness)
    requires Honest(c, i, community, anchor, now) && OwnNote(c, i.spent, i.fvk, gD) && PlacedNote(c, i.created, newGd, newPkD)
    ensures Spend(PublicOf(c, i, community, anchor, now), w) in Satisfying(c) && Fills(c, i, w)
  {
    w := FilledWitness(c, i, now, gD, newGd, newPkD);
    NativeCellsHold(c, i, community, anchor, now, w);
  }
}
