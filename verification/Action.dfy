/**
 One action: spend a note, create a note. The constraints are those of the note chip and of the
 action circuit; a proof is a witness that satisfies them.
 */
module ActionCircuit {
  import opened Widths
  import opened Field
  import opened Group
  import opened Bytes
  import opened Hashing
  import opened Notes
  import opened Merkle
  import opened NativeDecay
  import opened Arithmetic
  import RangeCheck
  import DecayChip

  // ---------------------------------------------------------------- the note chip

  /** The cells a note is built from, and the two packed ones. */
  datatype NoteCells = NoteCells(
    community: Base, coinCommunity: Base, value: Base, tNote: Base, kind: Base, expiry: Base,
    gdX: Base, gdY: Base, pkdX: Base, pkdY: Base, rho: Base, psi: Base, memoCm: Base, rcm: Base,
    amount: Base, meta: Base)

  function Elements(n: NoteCells): (s: seq<Base>)
    ensures |s| == COMMIT_ELEMENTS
  {
    [n.community, n.coinCommunity, n.amount, n.meta, n.gdX, n.gdY, n.pkdX, n.pkdY, n.rho, n.psi, n.memoCm, n.rcm]
  }

  /** "pack note fields" */
  predicate PackGate(value: int, tNote: int, amount: int, kind: int, expiry: int, meta: int)
  {
    Zero(amount - value - tNote * 0x8000_0000_0000_0000) && Zero(meta - kind - expiry * 2)
  }

  /** `commit`: range checks and packing. */
  ghost predicate CommitHolds(n: NoteCells)
  {
    && RangeCheck.CheckBits(n.value, VALUE_BITS) && RangeCheck.CheckBits(n.tNote, TIMESTAMP_BITS)
    && RangeCheck.CheckBits(n.kind, NOTE_KIND_BITS) && RangeCheck.CheckBits(n.expiry, EXPIRY_BITS)
    && PackGate(n.value, n.tNote, n.amount, n.kind, n.expiry, n.meta)
  }

  predicate CellsInWidths(n: NoteCells)
  {
    n.value < VALUE_LIMIT && n.tNote < TIMESTAMP_LIMIT && n.kind <= 1 && n.expiry < EXPIRY_LIMIT
  }

  /** The chip's constraints hold exactly for parts of exact width and their native packing. */
  lemma CommitExact(n: NoteCells)
    ensures CommitHolds(n) <==>
      CellsInWidths(n) && n.amount == PackAmount(n.value, n.tNote) && n.meta == PackMeta(n.kind, n.expiry)
  {
    RangeCheck.CheckBitsExact(n.value, VALUE_BITS);
    RangeCheck.CheckBitsExact(n.tNote, TIMESTAMP_BITS);
    RangeCheck.CheckBitsExact(n.kind, NOTE_KIND_BITS);
    RangeCheck.CheckBitsExact(n.expiry, EXPIRY_BITS);
    Pow2Values();
    assert Pow2(16) == 0x1_0000 && Pow2(1) == 2;
    PackSolved(n.value, n.tNote, n.amount, n.kind, n.expiry, n.meta);
  }

  lemma PackSolved(value: nat, tNote: nat, amount: Base, kind: nat, expiry: nat, meta: Base)
    ensures PackGate(value, tNote, amount, kind, expiry, meta) <==>
      amount == PackAmount(value, tNote) && meta == PackMeta(kind, expiry)
  {
    ZeroSolved(amount, value + tNote * 0x8000_0000_0000_0000);
    ZeroSolved(meta, kind + expiry * 2);
    assert amount as int - (value + tNote * 0x8000_0000_0000_0000) == amount - value - tNote * 0x8000_0000_0000_0000;
  }

  /** The note whose cells these are; the diversifier is not among them. */
  function NoteOf(n: NoteCells): (note: Note)
    requires CellsInWidths(n)
  {
    Note(n.community, n.coinCommunity, n.value, n.tNote, if n.kind == 0 then Normal else Deferred, n.expiry, 0,
         n.gdX, n.gdY, n.pkdX, n.pkdY, n.rho, n.psi, n.memoCm, n.rcm)
  }

  /** The chip hashes what the native commitment hashes. */
  lemma CommitIsNative(n: NoteCells)
    requires CommitHolds(n)
    ensures CellsInWidths(n) && InWidths(NoteOf(n)) && Elements(n) == CommitElements(NoteOf(n))
  {
    CommitExact(n);
  }

  // ---------------------------------------------------------------- the action circuit

  /** `[anchor, nf, rk_x, rk_y, cm_new, cv_net_x, cv_net_y, now, community]` */
  datatype Instance = Instance(
    anchor: Base, nf: Base, rkX: Base, rkY: Base, cmNew: Base, cvX: Base, cvY: Base, now: Base, community: Base)

  /** What the prover assigns. */
  datatype Witness = Witness(
    value: Base, tNote: Base, kind: Base, expiry: Base, gD: Point, rho: Base, psi: Base, memoCm: Base, rcm: Base,
    ak: Point, nk: Base, rivk: Base, leafPos: nat, path: seq<Base>,
    newValue: Base, newGd: Point, newPkD: Point, newKind: Base, newExpiry: Base, newPsi: Base, newMemoCm: Base,
    newRcm: Base, rcv: Scalar, alpha: Scalar,
    amount: Base, meta: Base, newAmount: Base, newMeta: Base,
    decayed: Base, chain: DecayChip.ChainCells, tail: DecayChip.TailCells, magnitude: Base, sign: Base)
  {
    function Ivk(c: Crypto): Base { c.Hash3(c.X(ak), nk, rivk) }

    /** The spent note's cells: `pk_d` is computed from the key, the community is public. */
    function Old(c: Crypto, inst: Instance): NoteCells
    {
      var pkD := Mul(Ivk(c), gD);
      NoteCells(inst.community, inst.community, value, tNote, kind, expiry, c.X(gD), c.Y(gD), c.X(pkD), c.Y(pkD),
                rho, psi, memoCm, rcm, amount, meta)
    }

    function CmOld(c: Crypto, inst: Instance): Base { c.poseidon(Elements(Old(c, inst))) }

    function Nf(c: Crypto, inst: Instance): Base { Nullifier(c, nk, rho, CmOld(c, inst)) }

    /** The created note's cells: dated `now`, and its `rho` is the nullifier. */
    function New(c: Crypto, inst: Instance): NoteCells
    {
      NoteCells(inst.community, inst.community, newValue, inst.now, newKind, newExpiry,
                c.X(newGd), c.Y(newGd), c.X(newPkD), c.Y(newPkD), Nf(c, inst), newPsi, newMemoCm, newRcm,
                newAmount, newMeta)
    }

    function CmNew(c: Crypto, inst: Instance): Base { c.poseidon(Elements(New(c, inst))) }

    function AnchorRoot(c: Crypto, inst: Instance): Base
    {
      MerkleRoot(c, CmOld(c, inst), leafPos, path)
    }

    /** The signed net value of the short scalar `(magnitude, sign)`. */
    function Net(): int { if sign == 1 then magnitude else 0 - magnitude }
  }

  /** `[net] V + [rcv] R` */
  function ValueCommitment(c: Crypto, net: int, rcv: Scalar): Point
  {
    Add(Mul(ReduceScalar(net), c.V), Mul(rcv, c.R))
  }

  /** The "action" gate. */
  predicate ActionGate(decayed: int, vNew: int, magnitude: int, sign: int, vOld: int, root: int, anchor: int)
  {
    Zero(decayed - vNew - Times(magnitude, sign)) && Zero(Times(vOld, root - anchor))
  }

  /** A short scalar: the gadget takes 64 bits of magnitude and a sign with `sign^2 = 1`. */
  predicate ShortScalar(magnitude: nat, sign: nat)
  {
    magnitude < 0x1_0000_0000_0000_0000 && Zero(Times(sign, sign) - 1)
  }

  /** Witnessed points are on the curve and not the identity; the position has 32 bits. */
  predicate WitnessShape(w: Witness)
  {
    && w.ak != IDENTITY && w.gD != IDENTITY && w.newGd != IDENTITY && w.newPkD != IDENTITY
    && w.leafPos < MAX_LEAVES && |w.path| == MERKLE_DEPTH
  }

  /** Everything `synthesize` constrains. */
  ghost predicate ActionHolds(c: Crypto, inst: Instance, w: Witness)
  {
    && WitnessShape(w)
    && CommitHolds(w.Old(c, inst)) && CommitHolds(w.New(c, inst))
    && inst.nf == w.Nf(c, inst) && inst.cmNew == w.CmNew(c, inst)
    && (inst.rkX, inst.rkY) == c.coordinates(Add(Mul(w.alpha, c.G), w.ak))
    && DecayChip.ChipHolds(true, inst.now, w.value, w.tNote, w.decayed, w.chain, w.tail)
    && ActionGate(w.decayed, w.newValue, w.magnitude, w.sign, w.value, w.AnchorRoot(c, inst), inst.anchor)
    && ShortScalar(w.magnitude, w.sign)
    && (inst.cvX, inst.cvY) == c.coordinates(ValueCommitment(c, w.Net(), w.rcv))
  }

  // ---------------------------------------------------------------- what a proof shows

  /** What an action claims about integers, notes and the tree. */
  ghost predicate ActionMeans(c: Crypto, inst: Instance, w: Witness)
  {
    && CellsInWidths(w.Old(c, inst)) && CellsInWidths(w.New(c, inst))
    && inst.now >= w.tNote
    && w.decayed == DecayWindowed(w.value, inst.now - w.tNote) && w.decayed <= w.value
    && w.Net() == w.decayed - w.newValue && w.magnitude < VALUE_LIMIT
    && (w.value == 0 || w.AnchorRoot(c, inst) == inst.anchor)
  }

  /** Soundness of the action circuit. */
  lemma ActionSound(c: Crypto, inst: Instance, w: Witness)
    requires NoZeroDivisors() && ActionHolds(c, inst, w)
    ensures ActionMeans(c, inst, w)
  {
    CommitExact(w.Old(c, inst));
    CommitExact(w.New(c, inst));
    DecaySound(inst.now, w.value, w.tNote, w.decayed, w.chain, w.tail);
    GateSound(w.decayed, w.newValue, w.magnitude, w.sign, w.value, w.AnchorRoot(c, inst), inst.anchor);
  }

  lemma GateSound(decayed: nat, vNew: nat, magnitude: nat, sign: Base, vOld: Base, root: Base, anchor: Base)
    requires NoZeroDivisors() && decayed < VALUE_LIMIT && vNew < VALUE_LIMIT
    requires ActionGate(decayed, vNew, magnitude, sign, vOld, root, anchor) && ShortScalar(magnitude, sign)
    ensures decayed - vNew == (if sign == 1 then magnitude else 0 - magnitude) && magnitude < VALUE_LIMIT
    ensures vOld == 0 || root == anchor
  {
    SignCell(sign);
    NetSound(decayed, vNew, magnitude, sign);
    AnchorOrZero(vOld, root, anchor);
  }

  lemma DecaySound(now: nat, value: nat, tNote: nat, decayed: nat, chain: DecayChip.ChainCells, tail: DecayChip.TailCells)
    requires NoZeroDivisors() && DecayChip.ChipHolds(true, now, value, tNote, decayed, chain, tail)
    requires value < VALUE_LIMIT && tNote < TIMESTAMP_LIMIT && now < TIMESTAMP_LIMIT
    ensures now >= tNote && decayed == DecayWindowed(value, now - tNote) && decayed <= value
  {
    DecayChip.DecayChipSound(true, now, value, tNote, decayed, chain, tail);
    var duration := now - tNote;
    DecayNeverGains(value, duration);
  }

  /** The net value of the gate is the integer difference: nothing wraps around. */
  lemma NetSound(decayed: nat, vNew: nat, magnitude: nat, sign: nat)
    requires decayed < VALUE_LIMIT && vNew < VALUE_LIMIT && magnitude < 0x1_0000_0000_0000_0000
    requires sign == 1 || sign == P - 1
    requires Zero(decayed - vNew - Times(magnitude, sign))
    ensures decayed - vNew == (if sign == 1 then magnitude else 0 - magnitude) && magnitude < VALUE_LIMIT
  {
    TimesIsProduct(magnitude, sign);
    if sign == 1 {
      ZeroSmall(decayed - vNew - magnitude);
    } else {
      NegativeNet(decayed - vNew, magnitude, Times(magnitude, sign));
    }
  }

  lemma NegativeNet(net: int, magnitude: nat, product: int)
    requires 0 - VALUE_LIMIT < net < VALUE_LIMIT && magnitude < 0x1_0000_0000_0000_0000
    requires product == magnitude * 0x40000000000000000000000000000000224698fc094cf91b992d30ed00000000 && Zero(net - product)
    ensures net == 0 - magnitude
  {
    var k := Quotient(net - product);
    assert net + magnitude == (k + magnitude) * 0x40000000000000000000000000000000224698fc094cf91b992d30ed00000001;
    assert k + magnitude == 0;
  }

  lemma MultipleOfP(x: int, k: int)
    ensures Reduce(x - k * 0x40000000000000000000000000000000224698fc094cf91b992d30ed00000001) == Reduce(x)
  {
    var l := Quotient(x);
    ReduceUnique(x - k * 0x40000000000000000000000000000000224698fc094cf91b992d30ed00000001, l - k, Reduce(x));
  }

  /** `v_old * (root - anchor) = 0`: a note of value is in the tree of the anchor. */
  lemma AnchorOrZero(v: Base, root: Base, anchor: Base)
    requires NoZeroDivisors() && Zero(Times(v, root as int - anchor))
    ensures v == 0 || root == anchor
  {
    if root >= anchor {
      assert ZeroProduct(v, root - anchor);
    } else {
      TimesNegated(v, anchor - root);
      ZeroNegated(Times(v, anchor - root));
      assert ZeroProduct(v, anchor - root);
    }
  }

  // ---------------------------------------------------------------- one note, one nullifier

  /** The Poseidon queries of an action. */
  ghost predicate WitnessKnown(c: Crypto, known: Known, inst: Instance, w: Witness)
  {
    && [c.X(w.ak), w.nk, w.rivk] in known.poseidon
    && Elements(w.Old(c, inst)) in known.poseidon && Elements(w.New(c, inst)) in known.poseidon
    && [w.nk, w.rho, w.CmOld(c, inst)] in known.poseidon
    && |w.path| == MERKLE_DEPTH && PathKnown(c, known, w.CmOld(c, inst), w.leafPos, w.path, 0)
  }

  /**
   One note, one nullifier: two satisfying spends expose the same nullifier exactly when they spend
   the same commitment. The commitment fixes `g_d` and `pk_d`, these fix `ivk`, and `ivk` fixes `nk`.
   */
  lemma OneNoteOneNullifier(c: Crypto, known: Known, inst: Instance, w: Witness, inst': Instance, w': Witness)
    requires CollisionFree(c, known) && CoordinatesInjective(c) && NoScalarZeroDivisors()
    requires ActionHolds(c, inst, w) && ActionHolds(c, inst', w')
    requires WitnessKnown(c, known, inst, w) && WitnessKnown(c, known, inst', w')
    ensures inst.nf == inst'.nf <==> w.CmOld(c, inst) == w'.CmOld(c, inst')
  {
    if inst.nf == inst'.nf {
      SameTriple(c, known, w.nk, w.rho, w.CmOld(c, inst), w'.nk, w'.rho, w'.CmOld(c, inst'));
    }
    if w.CmOld(c, inst) == w'.CmOld(c, inst') {
      SameNoteSameKey(c, known, inst, w, inst', w');
    }
  }

  /** Spends of one commitment are spends of one note under one key. */
  lemma SameNoteSameKey(c: Crypto, known: Known, inst: Instance, w: Witness, inst': Instance, w': Witness)
    requires CollisionFree(c, known) && CoordinatesInjective(c) && NoScalarZeroDivisors()
    requires ActionHolds(c, inst, w) && ActionHolds(c, inst', w')
    requires WitnessKnown(c, known, inst, w) && WitnessKnown(c, known, inst', w')
    requires w.CmOld(c, inst) == w'.CmOld(c, inst')
    ensures w.value == w'.value && w.tNote == w'.tNote && w.kind == w'.kind && w.expiry == w'.expiry
    ensures w.rho == w'.rho && w.gD == w'.gD && w.nk == w'.nk && c.X(w.ak) == c.X(w'.ak)
  {
    var s, t := Elements(w.Old(c, inst)), Elements(w'.Old(c, inst'));
    assert s[2] == t[2] && s[3] == t[3] && s[4] == t[4] && s[5] == t[5] && s[6] == t[6] && s[7] == t[7] && s[8] == t[8];
    CommitExact(w.Old(c, inst));
    CommitExact(w'.Old(c, inst'));
    PackExact(w.value, w.tNote, w.kind, w.expiry);
    PackExact(w'.value, w'.tNote, w'.kind, w'.expiry);
    SamePoint(c, w.gD, w'.gD);
    SamePoint(c, Mul(w.Ivk(c), w.gD), Mul(w'.Ivk(c), w'.gD));
    MulInjective(w.Ivk(c), w'.Ivk(c), w.gD);
    SameTriple(c, known, c.X(w.ak), w.nk, w.rivk, c.X(w'.ak), w'.nk, w'.rivk);
  }
}
