/** The bundle on the wire: strict decoding, so that one bundle has exactly one encoding. */
module Wire {
  import opened Arithmetic
  import opened Group
  import opened Bytes
  import opened Notes
  import opened TreeState
  import opened Bundles
  import opened Protobuf

  const CIRCUIT_VERSION: u32 := 2
  const ENC_CIPHERTEXT_SIZE: nat := 580
  const OUT_CIPHERTEXT_SIZE: nat := 80
  const MAX_SHIELDED_BUNDLE_SIZE: nat := 4096
  const MAX_AUTHORIZATION_SIZE: nat := 8960

  datatype WireError =
    | Protobuf | MissingAnchor | WrongCircuitVersion(n: u32) | WrongActionCount(count: nat) | WrongLength(field: string)
    | NotCanonical(field: string) | CrossCommunityNotSupported | UnsupportedTreeEpoch(epoch: u32) | TooLarge
    | UnsupportedBody(tag: u32) | MissingField(field: string)

  // ---------------------------------------------------------------- canonical fields

  /** Compressed points; the library decodes only canonical encodings. */
  datatype PointCodec = PointCodec(encode: Point -> bytes, decode: bytes -> Option<Point>)

  ghost predicate CanonicalPoints(k: PointCodec)
  {
    && (forall p: Point :: |k.encode(p)| == 32)
    && (forall s: bytes, p: Point | |s| == 32 :: k.decode(s) == Some(p) <==> s == k.encode(p))
  }

  function ReadBase(field: string, s: bytes): Result<Base, WireError>
  {
    if |s| != 32 then Err(WrongLength(field))
    else
      var x := BaseFromBytes(s);
      if x.None? then Err(NotCanonical(field)) else Ok(x.value)
  }

  /** A canonical point other than the identity. */
  function ReadPoint(k: PointCodec, field: string, s: bytes): Result<Point, WireError>
  {
    if |s| != 32 then Err(WrongLength(field))
    else
      var p := k.decode(s);
      if p.None? || p.value == IDENTITY then Err(NotCanonical(field)) else Ok(p.value)
  }

  lemma ReadBaseExact(field: string, s: bytes, x: Base)
    ensures ReadBase(field, s) == Ok(x) <==> s == Repr(x)
  {
    if |s| == 32 { BaseCodec(x, s); }
  }

  lemma ReadPointExact(k: PointCodec, field: string, s: bytes, p: Point)
    requires CanonicalPoints(k)
    ensures ReadPoint(k, field, s) == Ok(p) <==> p != IDENTITY && s == k.encode(p)
  {}

  // ---------------------------------------------------------------- messages

  datatype AnchorMessage = AnchorMessage(root: bytes, treeEpoch: u32)

  datatype ActionMessage = ActionMessage(
    cv: bytes, nullifier: bytes, rk: bytes, cmX: bytes, ephemeralKey: bytes, encCiphertext: bytes, outCiphertext: bytes)

  datatype ShieldedMessage = ShieldedMessage(
    anchor: Option<AnchorMessage>, actions: seq<ActionMessage>, crossCommunityCv: bytes, circuitVersion: u32)

  datatype AuthorizationMessage = AuthorizationMessage(proof: bytes, spendAuthSigs: seq<bytes>, bindingSig: bytes)

  function AnchorKinds(): seq<Kind> { [KBytes, KUint32] }
  function AnchorSlots(m: AnchorMessage): seq<Slot> { [BytesSlot(m.root), Uint32Slot(m.treeEpoch)] }

  function DecodeAnchor(s: bytes): Option<AnchorMessage>
  {
    var slots := DecodeMessage(AnchorKinds(), s);
    if slots.None? then None else Some(AnchorFrom(slots.value))
  }

  function AnchorFrom(t: seq<Slot>): AnchorMessage
    requires AllFit(AnchorKinds(), t)
  {
    assert Fits(AnchorKinds()[0], t[0]) && Fits(AnchorKinds()[1], t[1]);
    AnchorMessage(t[0].b, t[1].n)
  }

  function ActionKinds(): seq<Kind> { [KBytes, KBytes, KBytes, KBytes, KBytes, KBytes, KBytes] }

  function ActionSlots(m: ActionMessage): seq<Slot>
  {
    [BytesSlot(m.cv), BytesSlot(m.nullifier), BytesSlot(m.rk), BytesSlot(m.cmX), BytesSlot(m.ephemeralKey),
     BytesSlot(m.encCiphertext), BytesSlot(m.outCiphertext)]
  }

  function ActionFrom(t: seq<Slot>): ActionMessage
    requires AllFit(ActionKinds(), t)
  {
    assert forall i | 0 <= i < 7 :: Fits(ActionKinds()[i], t[i]) && ActionKinds()[i] == KBytes;
    ActionMessage(t[0].b, t[1].b, t[2].b, t[3].b, t[4].b, t[5].b, t[6].b)
  }

  function DecodeAction(s: bytes): Option<ActionMessage>
  {
    var slots := DecodeMessage(ActionKinds(), s);
    if slots.None? then None else Some(ActionFrom(slots.value))
  }

  function EncodeAction(m: ActionMessage): bytes { EncodeMessage(ActionSlots(m)) }

  function EncodeActions(actions: seq<ActionMessage>): (items: seq<bytes>)
    ensures |items| == |actions|
  {
    seq(|actions|, i requires 0 <= i < |actions| => EncodeAction(actions[i]))
  }

  function DecodeActions(items: seq<bytes>): Option<seq<ActionMessage>>
  {
    AllSome(seq(|items|, i requires 0 <= i < |items| => DecodeAction(items[i])))
  }

  function ShieldedKinds(): seq<Kind> { [KOptional, KRepeated, KBytes, KUint32] }

  function ShieldedSlots(m: ShieldedMessage): seq<Slot>
  {
    [OptionalSlot(if m.anchor.None? then None else Some(EncodeMessage(AnchorSlots(m.anchor.value)))),
     RepeatedSlot(EncodeActions(m.actions)), BytesSlot(m.crossCommunityCv), Uint32Slot(m.circuitVersion)]
  }

  function DecodeShieldedProst(s: bytes): Option<ShieldedMessage>
  {
    var slots := DecodeMessage(ShieldedKinds(), s);
    if slots.None? then None else ShieldedFrom(slots.value)
  }

  function ShieldedFrom(t: seq<Slot>): Option<ShieldedMessage>
    requires AllFit(ShieldedKinds(), t)
  {
    assert Fits(ShieldedKinds()[0], t[0]) && Fits(ShieldedKinds()[1], t[1]) && Fits(ShieldedKinds()[2], t[2]) && Fits(ShieldedKinds()[3], t[3]);
    ShieldedOf(t[0].message, t[1].items, t[2].b, t[3].n)
  }

  function ShieldedOf(anchorBytes: Option<bytes>, items: seq<bytes>, cross: bytes, version: u32): Option<ShieldedMessage>
  {
    var actions := DecodeActions(items);
    if actions.None? then None
    else if anchorBytes.None? then Some(ShieldedMessage(None, actions.value, cross, version))
    else
      var anchor := DecodeAnchor(anchorBytes.value);
      if anchor.None? then None else Some(ShieldedMessage(Some(anchor.value), actions.value, cross, version))
  }

  function AuthorizationKinds(): seq<Kind> { [KBytes, KRepeated, KBytes] }

  function AuthorizationSlots(m: AuthorizationMessage): seq<Slot>
  {
    [BytesSlot(m.proof), RepeatedSlot(m.spendAuthSigs), BytesSlot(m.bindingSig)]
  }

  function AuthorizationFrom(t: seq<Slot>): AuthorizationMessage
    requires AllFit(AuthorizationKinds(), t)
  {
    assert Fits(AuthorizationKinds()[0], t[0]) && Fits(AuthorizationKinds()[1], t[1]) && Fits(AuthorizationKinds()[2], t[2]);
    AuthorizationMessage(t[0].b, t[1].items, t[2].b)
  }

  function DecodeAuthorizationProst(s: bytes): Option<AuthorizationMessage>
  {
    var slots := DecodeMessage(AuthorizationKinds(), s);
    if slots.None? then None else Some(AuthorizationFrom(slots.value))
  }

  /** `decode_shielded_message`: the bytes must be the encoding of what they decode to. */
  function DecodeShieldedMessage(s: bytes): Result<ShieldedMessage, WireError>
  {
    if |s| > MAX_SHIELDED_BUNDLE_SIZE then Err(TooLarge)
    else
      var m := DecodeShieldedProst(s);
      if m.None? then Err(Protobuf)
      else if EncodeMessage(ShieldedSlots(m.value)) != s then Err(NotCanonical("ShieldedBundle"))
      else Ok(m.value)
  }

  // ---------------------------------------------------------------- bundles

  function ActionToWire(k: PointCodec, a: Action): ActionMessage
  {
    ActionMessage(k.encode(a.cvNet), Repr(a.nullifier), k.encode(a.rk), Repr(a.cm),
                  a.encrypted.epkBytes, a.encrypted.encCiphertext, a.encrypted.outCiphertext)
  }

  function ActionsToWire(k: PointCodec, actions: seq<Action>): (s: seq<ActionMessage>)
    ensures |s| == |actions|
  {
    seq(|actions|, i requires 0 <= i < |actions| => ActionToWire(k, actions[i]))
  }

  function ShieldedToWire(k: PointCodec, anchor: Base, actions: seq<Action>): ShieldedMessage
  {
    ShieldedMessage(Some(AnchorMessage(Repr(anchor), 0)), ActionsToWire(k, actions), [], CIRCUIT_VERSION)
  }

  function EncodeShielded(k: PointCodec, anchor: Base, actions: seq<Action>): bytes
  {
    EncodeMessage(ShieldedSlots(ShieldedToWire(k, anchor, actions)))
  }

  /** `encode`: the part inside the body and the authorisation next to it. */
  function Encode(k: PointCodec, b: Bundle): (bytes, bytes)
  {
    (EncodeShielded(k, b.anchor, b.actions),
     EncodeMessage(AuthorizationSlots(AuthorizationMessage(b.proof, b.spendAuthSigs, b.bindingSig))))
  }

  function ActionFromWire(k: PointCodec, a: ActionMessage): Result<Action, WireError>
  {
    if |a.encCiphertext| != ENC_CIPHERTEXT_SIZE then Err(WrongLength("enc_ciphertext"))
    else if |a.outCiphertext| != OUT_CIPHERTEXT_SIZE then Err(WrongLength("out_ciphertext"))
    else
      var cm, cv := ReadBase("cm_x", a.cmX), ReadPoint(k, "cv", a.cv);
      var nf, rk := ReadBase("nullifier", a.nullifier), ReadPoint(k, "rk", a.rk);
      if cm.Err? then Err(cm.error)
      else if cv.Err? then Err(cv.error)
      else if nf.Err? then Err(nf.error)
      else if rk.Err? then Err(rk.error)
      else if |a.ephemeralKey| != 32 then Err(WrongLength("ephemeral_key"))
      else Ok(Action(cv.value, nf.value, rk.value, cm.value,
                     EncryptedNote(a.ephemeralKey, cm.value, a.encCiphertext, a.outCiphertext)))
  }

  function ActionsFromWire(k: PointCodec, actions: seq<ActionMessage>): (r: Result<seq<Action>, WireError>)
    ensures r.Ok? ==> |r.value| == |actions|
  {
    Collect(seq(|actions|, i requires 0 <= i < |actions| => ActionFromWire(k, actions[i])))
  }

  /** `shielded_from_wire`: anchor and actions, checked field by field. */
  function ShieldedFromWire(k: PointCodec, m: ShieldedMessage): (r: Result<(Base, seq<Action>), WireError>)
    ensures r.Ok? ==> |r.value.1| == ACTIONS
  {
    if m.circuitVersion != CIRCUIT_VERSION then Err(WrongCircuitVersion(m.circuitVersion))
    else if m.crossCommunityCv != [] then Err(CrossCommunityNotSupported)
    else if |m.actions| != ACTIONS then Err(WireError.WrongActionCount(|m.actions|))
    else if m.anchor.None? then Err(MissingAnchor)
    else if m.anchor.value.treeEpoch != 0 then Err(UnsupportedTreeEpoch(m.anchor.value.treeEpoch))
    else
      var actions := ActionsFromWire(k, m.actions);
      if actions.Err? then Err(actions.error)
      else
        var anchor := ReadBase("anchor", m.anchor.value.root);
        if anchor.Err? then Err(anchor.error) else Ok((anchor.value, actions.value))
  }

  /** `decode_shielded` */
  function DecodeShielded(k: PointCodec, s: bytes): (r: Result<(Base, seq<Action>), WireError>)
    ensures r.Ok? ==> |r.value.1| == ACTIONS
  {
    var m := DecodeShieldedMessage(s);
    if m.Err? then Err(m.error) else ShieldedFromWire(k, m.value)
  }

  /** `decode`, with `from_wire` behind it. */
  function Decode(k: PointCodec, s: bytes, authorization: bytes, community: Base, now: u64): Result<Bundle, WireError>
  {
    if |authorization| > MAX_AUTHORIZATION_SIZE then Err(TooLarge)
    else
      var shielded := DecodeShieldedMessage(s);
      if shielded.Err? then Err(shielded.error)
      else
        var auth := DecodeAuthorizationProst(authorization);
        if auth.None? then Err(Protobuf)
        else if EncodeMessage(AuthorizationSlots(auth.value)) != authorization then Err(NotCanonical("ShieldedAuthorization"))
        else FromWire(k, shielded.value, auth.value, community, now)
  }

  function FromWire(k: PointCodec, m: ShieldedMessage, a: AuthorizationMessage, community: Base, now: u64): Result<Bundle, WireError>
  {
    var shielded := ShieldedFromWire(k, m);
    if shielded.Err? then Err(shielded.error)
    else if |a.spendAuthSigs| != ACTIONS then Err(WireError.WrongActionCount(|a.spendAuthSigs|))
    else if |a.proof| != PROOF_SIZE then Err(WrongLength("proof"))
    else if exists sig | sig in a.spendAuthSigs :: |sig| != 64 then Err(WrongLength("spend_auth_sig"))
    else if |a.bindingSig| != 64 then Err(WrongLength("binding_sig"))
    else Ok(Bundle(shielded.value.0, now, community, shielded.value.1, a.proof, a.spendAuthSigs, a.bindingSig))
  }

  // ---------------------------------------------------------------- one bundle, one encoding

  predicate WellFormedAction(a: Action)
  {
    && a.cvNet != IDENTITY && a.rk != IDENTITY && a.encrypted.cm == a.cm
    && |a.encrypted.epkBytes| == 32 && |a.encrypted.encCiphertext| == ENC_CIPHERTEXT_SIZE
    && |a.encrypted.outCiphertext| == OUT_CIPHERTEXT_SIZE
  }

  predicate WellFormedActions(actions: seq<Action>)
  {
    |actions| == ACTIONS && forall a | a in actions :: WellFormedAction(a)
  }

  predicate WellFormed(b: Bundle)
  {
    && WellFormedActions(b.actions) && |b.proof| == PROOF_SIZE && |b.bindingSig| == 64
    && |b.spendAuthSigs| == ACTIONS && forall sig | sig in b.spendAuthSigs :: |sig| == 64
  }

  lemma ActionExact(k: PointCodec, m: ActionMessage, a: Action)
    requires CanonicalPoints(k)
    ensures ActionFromWire(k, m) == Ok(a) <==> WellFormedAction(a) && m == ActionToWire(k, a)
  {
    ReadBaseExact("cm_x", m.cmX, a.cm);
    ReadBaseExact("nullifier", m.nullifier, a.nullifier);
    ReadPointExact(k, "cv", m.cv, a.cvNet);
    ReadPointExact(k, "rk", m.rk, a.rk);
  }

  lemma ActionsExact(k: PointCodec, ms: seq<ActionMessage>, actions: seq<Action>)
    requires CanonicalPoints(k)
    ensures ActionsFromWire(k, ms) == Ok(actions) <==>
      (forall a | a in actions :: WellFormedAction(a)) && ms == ActionsToWire(k, actions)
  {
    var rs := seq(|ms|, i requires 0 <= i < |ms| => ActionFromWire(k, ms[i]));
    CollectExact(rs, actions);
    if |ms| == |actions| {
      forall i | 0 <= i < |ms|
        ensures rs[i] == Ok(actions[i]) <==> WellFormedAction(actions[i]) && ms[i] == ActionsToWire(k, actions)[i]
      {
        ActionExact(k, ms[i], actions[i]);
      }
    }
  }

  /** The messages of a bundle's inner part are exactly the ones that read back. */
  lemma ShieldedExact(k: PointCodec, m: ShieldedMessage, anchor: Base, actions: seq<Action>)
    requires CanonicalPoints(k)
    ensures ShieldedFromWire(k, m) == Ok((anchor, actions)) <==>
      WellFormedActions(actions) && m == ShieldedToWire(k, anchor, actions)
  {
    ActionsExact(k, m.actions, actions);
    if m.anchor.Some? { ReadBaseExact("anchor", m.anchor.value.root, anchor); }
  }

  lemma AnchorBack(m: AnchorMessage)
    requires |m.root| == 32
    ensures DecodeAnchor(EncodeMessage(AnchorSlots(m))) == Some(m)
    ensures |EncodeMessage(AnchorSlots(m))| <= 72
  {
    SlotsBoundAt(AnchorSlots(m), 0);
    SlotsBoundAt(AnchorSlots(m), 1);
    SmallMessage(AnchorKinds(), AnchorSlots(m));
  }

  predicate ActionMessageSized(m: ActionMessage)
  {
    |m.cv| == 32 && |m.nullifier| == 32 && |m.rk| == 32 && |m.cmX| == 32 && |m.ephemeralKey| == 32
    && |m.encCiphertext| == ENC_CIPHERTEXT_SIZE && |m.outCiphertext| == OUT_CIPHERTEXT_SIZE
  }

  lemma ActionBack(m: ActionMessage)
    requires ActionMessageSized(m)
    ensures DecodeAction(EncodeAction(m)) == Some(m)
    ensures |EncodeAction(m)| <= 960
  {
    ActionSlotsBound(m);
    SmallMessage(ActionKinds(), ActionSlots(m));
  }

  lemma ActionSlotsBound(m: ActionMessage)
    requires ActionMessageSized(m)
    ensures SlotsBound(ActionSlots(m)) == 960
  {
    var t := ActionSlots(m);
    SlotsBoundAt(t, 0);
    SlotsBoundAt(t, 1);
    SlotsBoundAt(t, 2);
    SlotsBoundAt(t, 3);
    SlotsBoundAt(t, 4);
    SlotsBoundAt(t, 5);
    SlotsBoundAt(t, 6);
  }

  lemma SlotsBoundAt(t: seq<Slot>, i: nat)
    requires i < |t|
    ensures SlotsBound(t[i..]) == SlotBound(t[i]) + SlotsBound(t[i + 1..])
    ensures t[0..] == t && SlotsBound(t[|t|..]) == 0
  {
    assert t[i..][1..] == t[i + 1..];
  }

  lemma {:induction false} EachIsShort(items: seq<bytes>, k: nat)
    requires forall b | b in items :: |b| <= k
    ensures ItemsBound(items) <= (20 + k) * |items|
  {
    if items != [] {
      assert items[0] in items;
      EachIsShort(items[1..], k);
      MulDistributes(1, |items[1..]|, 20 + k);
    }
  }

  lemma ActionsBack(ms: seq<ActionMessage>)
    requires forall m | m in ms :: ActionMessageSized(m)
    ensures DecodeActions(EncodeActions(ms)) == Some(ms)
    ensures ItemsBound(EncodeActions(ms)) <= 980 * |ms|
  {
    var items := EncodeActions(ms);
    forall i | 0 <= i < |ms| ensures DecodeAction(items[i]) == Some(ms[i]) && |items[i]| <= 960 {
      ActionBack(ms[i]);
    }
    AllSomeExact(seq(|items|, i requires 0 <= i < |items| => DecodeAction(items[i])), ms);
    EachIsShort(items, 960);
  }

  predicate ShieldedMessageSized(m: ShieldedMessage)
  {
    && m.anchor.Some? && |m.anchor.value.root| == 32 && |m.actions| == ACTIONS && m.crossCommunityCv == []
    && forall a | a in m.actions :: ActionMessageSized(a)
  }

  lemma ShieldedBound(m: ShieldedMessage)
    requires ShieldedMessageSized(m)
    ensures SlotsBound(ShieldedSlots(m)) <= MAX_SHIELDED_BUNDLE_SIZE
  {
    AnchorBack(m.anchor.value);
    ActionsBack(m.actions);
    SmallShielded(EncodeMessage(AnchorSlots(m.anchor.value)), EncodeActions(m.actions), m.circuitVersion);
  }

  lemma SmallShielded(anchor: bytes, items: seq<bytes>, version: u32)
    requires |anchor| <= 72 && ItemsBound(items) <= 1960
    ensures SlotsBound([OptionalSlot(Some(anchor)), RepeatedSlot(items), BytesSlot([]), Uint32Slot(version)]) <= MAX_SHIELDED_BUNDLE_SIZE
  {
    FourSlots([OptionalSlot(Some(anchor)), RepeatedSlot(items), BytesSlot([]), Uint32Slot(version)], 92, 1960, 20, 20);
  }

  lemma FourSlots(t: seq<Slot>, a: nat, b: nat, c: nat, d: nat)
    requires |t| == 4 && SlotBound(t[0]) <= a && SlotBound(t[1]) <= b && SlotBound(t[2]) <= c && SlotBound(t[3]) <= d
    ensures SlotsBound(t) <= a + b + c + d
  {
    SlotsBoundAt(t, 0);
    SlotsBoundAt(t, 1);
    SlotsBoundAt(t, 2);
    SlotsBoundAt(t, 3);
  }

  lemma ShieldedFits(m: ShieldedMessage)
    ensures AllFit(ShieldedKinds(), ShieldedSlots(m))
  {
    var kinds, t := ShieldedKinds(), ShieldedSlots(m);
    assert Fits(kinds[0], t[0]) && Fits(kinds[1], t[1]) && Fits(kinds[2], t[2]) && Fits(kinds[3], t[3]);
  }

  lemma ShieldedSlotsBack(m: ShieldedMessage)
    requires ShieldedMessageSized(m)
    ensures AllFit(ShieldedKinds(), ShieldedSlots(m)) && ShieldedFrom(ShieldedSlots(m)) == Some(m)
  {
    ShieldedFits(m);
    ShieldedOfBack(m, EncodeMessage(AnchorSlots(m.anchor.value)), EncodeActions(m.actions));
  }

  lemma ShieldedOfBack(m: ShieldedMessage, anchor: bytes, items: seq<bytes>)
    requires ShieldedMessageSized(m) && anchor == EncodeMessage(AnchorSlots(m.anchor.value)) && items == EncodeActions(m.actions)
    ensures ShieldedOf(Some(anchor), items, m.crossCommunityCv, m.circuitVersion) == Some(m)
  {
    AnchorBack(m.anchor.value);
    ActionsBack(m.actions);
  }

  lemma ShieldedBack(m: ShieldedMessage)
    requires ShieldedMessageSized(m)
    ensures DecodeShieldedMessage(EncodeMessage(ShieldedSlots(m))) == Ok(m)
  {
    ShieldedBound(m);
    ShieldedSlotsBack(m);
    SmallMessage(ShieldedKinds(), ShieldedSlots(m));
  }

  lemma DecodedIsEncoding(s: bytes)
    requires DecodeShieldedMessage(s).Ok?
    ensures s == EncodeMessage(ShieldedSlots(DecodeShieldedMessage(s).value))
  {}

  lemma ToWireSized(k: PointCodec, anchor: Base, actions: seq<Action>)
    requires CanonicalPoints(k) && WellFormedActions(actions)
    ensures ShieldedMessageSized(ShieldedToWire(k, anchor, actions))
  {
    forall i | 0 <= i < |actions| ensures ActionMessageSized(ActionsToWire(k, actions)[i]) {
      assert WellFormedAction(actions[i]);
    }
  }

  /** The inner part: decoding succeeds with these values exactly on their one encoding. */
  lemma DecodeShieldedExact(k: PointCodec, s: bytes, anchor: Base, actions: seq<Action>)
    requires CanonicalPoints(k)
    ensures DecodeShielded(k, s) == Ok((anchor, actions)) <==>
      WellFormedActions(actions) && s == EncodeShielded(k, anchor, actions)
  {
    if WellFormedActions(actions) && s == EncodeShielded(k, anchor, actions) {
      var m := ShieldedToWire(k, anchor, actions);
      ToWireSized(k, anchor, actions);
      ShieldedBack(m);
      ShieldedExact(k, m, anchor, actions);
    }
    if DecodeShielded(k, s) == Ok((anchor, actions)) {
      DecodedIsEncoding(s);
      ShieldedExact(k, DecodeShieldedMessage(s).value, anchor, actions);
    }
  }

  lemma AuthorizationBack(b: Bundle)
    requires WellFormed(b)
    ensures var m := AuthorizationMessage(b.proof, b.spendAuthSigs, b.bindingSig);
      DecodeAuthorizationProst(EncodeMessage(AuthorizationSlots(m))) == Some(m)
      && |EncodeMessage(AuthorizationSlots(m))| <= MAX_AUTHORIZATION_SIZE
  {
    EachIsShort(b.spendAuthSigs, 64);
    SmallAuthorization(b.proof, b.spendAuthSigs, b.bindingSig);
    SmallMessage(AuthorizationKinds(), AuthorizationSlots(AuthorizationMessage(b.proof, b.spendAuthSigs, b.bindingSig)));
  }

  lemma SmallAuthorization(proof: bytes, sigs: seq<bytes>, binding: bytes)
    requires |proof| == PROOF_SIZE && ItemsBound(sigs) <= 168 && |binding| == 64
    ensures SlotsBound([BytesSlot(proof), RepeatedSlot(sigs), BytesSlot(binding)]) <= MAX_AUTHORIZATION_SIZE
  {
    var t := [BytesSlot(proof), RepeatedSlot(sigs), BytesSlot(binding)];
    SlotsBoundAt(t, 0);
    SlotsBoundAt(t, 1);
    SlotsBoundAt(t, 2);
  }

  lemma EncodingDecodes(k: PointCodec, b: Bundle)
    requires CanonicalPoints(k) && WellFormed(b)
    ensures Decode(k, Encode(k, b).0, Encode(k, b).1, b.community, b.now) == Ok(b)
  {
    DecodeShieldedExact(k, Encode(k, b).0, b.anchor, b.actions);
    AuthorizationBack(b);
  }

  lemma FromWireExact(k: PointCodec, m: ShieldedMessage, a: AuthorizationMessage, community: Base, now: u64)
    requires CanonicalPoints(k) && FromWire(k, m, a, community, now).Ok?
    ensures var b := FromWire(k, m, a, community, now).value;
      && WellFormed(b) && b.community == community && b.now == now && m == ShieldedToWire(k, b.anchor, b.actions)
      && a == AuthorizationMessage(b.proof, b.spendAuthSigs, b.bindingSig)
  {
    var b := FromWire(k, m, a, community, now).value;
    ShieldedExact(k, m, b.anchor, b.actions);
  }

  lemma DecodedIsWellFormed(k: PointCodec, s: bytes, authorization: bytes, community: Base, now: u64)
    requires CanonicalPoints(k) && Decode(k, s, authorization, community, now).Ok?
    ensures var b := Decode(k, s, authorization, community, now).value;
      WellFormed(b) && b.community == community && b.now == now && Encode(k, b) == (s, authorization)
  {
    DecodedIsEncoding(s);
    FromWireExact(k, DecodeShieldedMessage(s).value, DecodeAuthorizationProst(authorization).value, community, now);
  }

  /**
   One bundle, one encoding: bytes decode to a bundle exactly when the bundle is well-formed and
   they are its encoding. Both round trips and the uniqueness of the encoding follow.
   */
  lemma DecodeExact(k: PointCodec, s: bytes, authorization: bytes, community: Base, now: u64, b: Bundle)
    requires CanonicalPoints(k)
    ensures Decode(k, s, authorization, community, now) == Ok(b) <==>
      WellFormed(b) && b.community == community && b.now == now && Encode(k, b) == (s, authorization)
  {
    if WellFormed(b) { EncodingDecodes(k, b); }
    if Decode(k, s, authorization, community, now).Ok? { DecodedIsWellFormed(k, s, authorization, community, now); }
  }

  /** What the wire lets through has coordinates, as the verifier demands. */
  lemma WellFormedHasCoordinates(b: Bundle)
    requires WellFormed(b)
    ensures HasCoordinates(b)
  {
    forall i | 0 <= i < |b.actions| ensures b.actions[i].cvNet != IDENTITY {
      assert WellFormedAction(b.actions[i]);
    }
  }
}
