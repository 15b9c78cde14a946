/** The signing device: it reviews a request against the body it is going to sign. */
module Signer {
  import opened Widths
  import opened Field
  import opened Group
  import opened Bytes
  import opened Hashing
  import opened Notes
  import opened ActionCircuit
  import opened Balance
  import opened Bundles
  import opened Protobuf
  import opened Wire
  import opened TransferBodies
  import opened NoteEncryption

  const MEMO_LEN: nat := 512

  datatype MemoOpening = MemoOpening(text: bytes, rMemo: Base)

  datatype OutputOpening = OutputOpening(
    address: Address, value: u64, kind: NoteKind, expiryEpoch: u64, rseed: bytes, memoCm: Base, freeMemo: bytes,
    memo: Option<MemoOpening>)

  datatype SigningRequest = SigningRequest(body: bytes, outputs: seq<OutputOpening>, alphas: seq<Option<Scalar>>)

  datatype Payment = Payment(address: Address, value: u64, kind: NoteKind, memo: Option<bytes>, freeMemo: bytes)

  datatype Review = Review(createdAt: u64, payments: seq<Payment>, change: nat, sighash: bytes, spends: nat)

  datatype ReviewError =
    | Body(error: WireError) | WrongOutputCount(n: nat) | WrongAlphaCount(n: nat) | InvalidNote(i: nat, e: NoteError)
    | CommitmentMismatch(i: nat) | CiphertextMismatch(i: nat) | MemoMismatch(i: nat) | ForeignSpend(i: nat)
    | NothingToSign | Request

  /** What the device computes with: hashes, ciphers, and the hash of a transaction body. */
  datatype Device = Device(c: Crypto, x: Suite, sighash: bytes -> bytes, fvk: FullViewingKey, community: Base)

  /** The types of an opening: fixed-size arrays. */
  predicate OpeningShape(o: OutputOpening)
  {
    && |o.rseed| == 32 && |o.freeMemo| == FREE_MEMO_SIZE
    && (o.memo.Some? ==> |o.memo.value.text| == MEMO_LEN)
  }

  /** `memo::commit` */
  function MemoCommit(c: Crypto, m: MemoOpening): Base { c.poseidon([c.memoHash(m.text), m.rMemo]) }

  function MemoText(o: OutputOpening): Option<bytes>
  {
    if o.memo.None? then None else Some(o.memo.value.text)
  }

  /** A memo goes with a memo commitment, and only then. */
  predicate MemoMatches(c: Crypto, o: OutputOpening)
  {
    if o.memo.None? then o.memoCm == 0 else o.memoCm != 0 && MemoCommit(c, o.memo.value) == o.memoCm
  }

  function OpenedNote(d: Device, createdAt: u64, nf: Base, o: OutputOpening): Result<Note, NoteError>
  {
    FromParts(d.c, d.community, d.community, o.value, createdAt, o.kind, o.expiryEpoch, o.address, nf, o.memoCm, o.rseed)
  }

  /** The ciphertexts the opening must have in the body. */
  function Expected(d: Device, a: Action, o: OutputOpening, note: Note): EncryptedNote
  {
    Encrypt(d.c, d.x, NoteWithSeed(note, o.rseed), o.address, o.freeMemo, Some(d.fvk.ovk), a.cvNet, Noise([], []))
  }

  predicate SameCiphertexts(e: EncryptedNote, f: EncryptedNote)
  {
    e.epkBytes == f.epkBytes && e.encCiphertext == f.encCiphertext && e.outCiphertext == f.outCiphertext
  }

  function RandomizedKey(c: Crypto, ak: Point, alpha: Scalar): Point { Add(ak, Mul(alpha, c.G)) }

  /** What can be wrong with an opening. */
  datatype Fault = NoteFault(e: NoteError) | CommitmentFault | CiphertextFault | MemoFault

  function FaultOf(d: Device, createdAt: u64, a: Action, o: OutputOpening): Option<Fault>
  {
    var note := OpenedNote(d, createdAt, a.nullifier, o);
    if note.Err? then Some(NoteFault(note.error))
    else if Commitment(d.c, note.value) != a.cm then Some(CommitmentFault)
    else if !SameCiphertexts(Expected(d, a, o, note.value), a.encrypted) then Some(CiphertextFault)
    else if !MemoMatches(d.c, o) then Some(MemoFault)
    else None
  }

  function FaultError(i: nat, f: Fault): ReviewError
  {
    match f
    case NoteFault(e) => InvalidNote(i, e)
    case CommitmentFault => CommitmentMismatch(i)
    case CiphertextFault => CiphertextMismatch(i)
    case MemoFault => MemoMismatch(i)
  }

  /** Every created note is change, padding or a payment. */
  datatype Destination = ToOwner | Padding | ToOther

  function DestinationOf(d: Device, o: OutputOpening): Destination
  {
    if Owns(d.c, d.fvk, o.address) then ToOwner else if o.value > 0 then ToOther else Padding
  }

  /** Whose spend it is: nobody asks for a signature, the device's own key, or another one. */
  datatype Spender = NotAsked | Own | Foreign

  function SpenderOf(d: Device, a: Action, alpha: Option<Scalar>): Spender
  {
    if alpha.None? then NotAsked else if RandomizedKey(d.c, d.fvk.ak, alpha.value) == a.rk then Own else Foreign
  }

  /** The findings about one action. */
  datatype Check = Check(fault: Option<Fault>, to: Destination, spender: Spender, o: OutputOpening)

  function CheckOf(d: Device, createdAt: u64, a: Action, o: OutputOpening, alpha: Option<Scalar>): Check
  {
    Check(FaultOf(d, createdAt, a, o), DestinationOf(d, o), SpenderOf(d, a, alpha), o)
  }

  function ChecksOf(d: Device, createdAt: u64, actions: seq<Action>, r: SigningRequest): (s: seq<Check>)
    requires |r.outputs| == |actions| == |r.alphas|
    ensures |s| == |actions|
  {
    seq(|actions|, i requires 0 <= i < |actions| => CheckOf(d, createdAt, actions[i], r.outputs[i], r.alphas[i]))
  }

  /** What the device has added up. */
  datatype Tally = Tally(payments: seq<Payment>, change: nat, spends: nat)

  function PaymentOf(o: OutputOpening): Payment { Payment(o.address, o.value, o.kind, MemoText(o), o.freeMemo) }

  function Sorted(t: Tally, to: Destination, o: OutputOpening): Tally
  {
    match to
    case ToOwner => t.(change := t.change + o.value)
    case ToOther => t.(payments := t.payments + [PaymentOf(o)])
    case Padding => t
  }

  /** Action `i` of a request: the created note, where it goes, and the spend. */
  function Take(t: Tally, i: nat, c: Check): Result<Tally, ReviewError>
  {
    var sorted := Sorted(t, c.to, c.o);
    if c.fault.Some? then Err(FaultError(i, c.fault.value))
    else if sorted.change >= 0x1_0000_0000_0000_0000 then Err(InvalidNote(i, ValueTooLarge))
    else match c.spender
      case Foreign => Err(ForeignSpend(i))
      case Own => Ok(sorted.(spends := sorted.spends + 1))
      case NotAsked => Ok(sorted)
  }

  function TakeAll(checks: seq<Check>): Result<Tally, ReviewError>
  {
    if checks == [] then Ok(Tally([], 0, 0))
    else
      var n := |checks| - 1;
      var before := TakeAll(checks[..n]);
      if before.Err? then before else Take(before.value, n, checks[n])
  }

  /** The part of `review` after the body was decoded. */
  function ReviewDecoded(d: Device, r: SigningRequest, createdAt: u64, actions: seq<Action>): Result<Review, ReviewError>
    requires |actions| == ACTIONS
  {
    if |r.outputs| != ACTIONS then Err(WrongOutputCount(|r.outputs|))
    else if |r.alphas| != ACTIONS then Err(WrongAlphaCount(|r.alphas|))
    else
      var t := TakeAll(ChecksOf(d, createdAt, actions, r));
      if t.Err? then Err(t.error)
      else if t.value.spends == 0 then Err(NothingToSign)
      else Ok(Review(createdAt, t.value.payments, t.value.change, d.sighash(r.body), t.value.spends))
  }

  /** `review` as a function of the request. */
  function ReviewOf(d: Device, r: SigningRequest): Result<Review, ReviewError>
  {
    var body := ParseTransferBody(r.body);
    if body.Err? then Err(Body(body.error))
    else
      var inner := DecodeShielded(d.x.points, body.value.shielded);
      if inner.Err? then Err(Body(inner.error)) else ReviewDecoded(d, r, body.value.createdAt, inner.value.1)
  }

  /** `review`: the loop over the actions. */
  method ReviewLoop(d: Device, r: SigningRequest) returns (v: Result<Review, ReviewError>)
    ensures v == ReviewOf(d, r)
  {
    var body := ParseTransferBodyLoop(r.body);
    if body.Err? {
      return Err(Body(body.error));
    }
    var inner := DecodeShielded(d.x.points, body.value.shielded);
    if inner.Err? {
      return Err(Body(inner.error));
    }
    if |r.outputs| != ACTIONS {
      return Err(WrongOutputCount(|r.outputs|));
    }
    if |r.alphas| != ACTIONS {
      return Err(WrongAlphaCount(|r.alphas|));
    }
    var t := ReviewActions(d, body.value.createdAt, inner.value.1, r);
    if t.Err? {
      return Err(t.error);
    }
    if t.value.spends == 0 {
      return Err(NothingToSign);
    }
    return Ok(Review(body.value.createdAt, t.value.payments, t.value.change, d.sighash(r.body), t.value.spends));
  }

  /** The loop of `review` over the actions. */
  method ReviewActions(d: Device, createdAt: u64, actions: seq<Action>, r: SigningRequest) returns (result: Result<Tally, ReviewError>)
    requires |r.outputs| == |actions| == |r.alphas|
    ensures result == TakeAll(ChecksOf(d, createdAt, actions, r))
  {
    ghost var checks := ChecksOf(d, createdAt, actions, r);
    var t := Tally([], 0, 0);
    for i := 0 to |actions|
      invariant TakeAll(checks[..i]) == Ok(t)
    {
      var check := CheckOf(d, createdAt, actions[i], r.outputs[i], r.alphas[i]);
      TakeSnoc(checks, i);
      var next := Take(t, i, check);
      if next.Err? {
        TakeFails(checks, i + 1);
        return Err(next.error);
      }
      t := next.value;
    }
    assert checks[..|actions|] == checks;
    return Ok(t);
  }

  lemma TakeSnoc(checks: seq<Check>, i: nat)
    requires i < |checks| && TakeAll(checks[..i]).Ok?
    ensures TakeAll(checks[..i + 1]) == Take(TakeAll(checks[..i]).value, i, checks[i])
  {
    assert checks[..i + 1][..i] == checks[..i];
  }

  /** The first error is the result. */
  lemma {:induction false} TakeFails(checks: seq<Check>, i: nat)
    requires i <= |checks| && TakeAll(checks[..i]).Err?
    ensures TakeAll(checks) == TakeAll(checks[..i])
    decreases |checks| - i
  {
    if i < |checks| {
      assert checks[..i + 1][..i] == checks[..i];
      TakeFails(checks, i + 1);
    } else {
      assert checks[..i] == checks;
    }
  }

  // ---------------------------------------------------------------- what an accepted request is

  /** No fault means: the opening is the note committed to in the body, encrypted there, with its memo. */
  lemma OpenedExact(d: Device, createdAt: u64, a: Action, o: OutputOpening)
    ensures var note := OpenedNote(d, createdAt, a.nullifier, o);
      FaultOf(d, createdAt, a, o) == None <==>
        && note.Ok? && Commitment(d.c, note.value) == a.cm
        && SameCiphertexts(Expected(d, a, o, note.value), a.encrypted) && MemoMatches(d.c, o)
    ensures FaultOf(d, createdAt, a, o) == None ==> o.value < VALUE_LIMIT
  {}

  /** The outputs that are payments, in order. */
  function Payments(d: Device, outputs: seq<OutputOpening>): seq<Payment>
  {
    if outputs == [] then []
    else
      var before, o := Payments(d, outputs[..|outputs| - 1]), outputs[|outputs| - 1];
      if DestinationOf(d, o) == ToOther then before + [PaymentOf(o)] else before
  }

  function OwnValue(d: Device, outputs: seq<OutputOpening>): nat
  {
    if outputs == [] then 0
    else
      var o := outputs[|outputs| - 1];
      OwnValue(d, outputs[..|outputs| - 1]) + if DestinationOf(d, o) == ToOwner then o.value else 0
  }

  function SpendCount(alphas: seq<Option<Scalar>>): nat
  {
    if alphas == [] then 0
    else SpendCount(alphas[..|alphas| - 1]) + if alphas[|alphas| - 1].Some? then 1 else 0
  }

  /** A check without complaint. */
  predicate Passes(c: Check) { c.fault.None? && c.spender != Foreign }

  /** The checks are those of these outputs and alphas, and what has no fault fits into a note. */
  predicate ChecksAbout(d: Device, checks: seq<Check>, outputs: seq<OutputOpening>, alphas: seq<Option<Scalar>>)
  {
    && |checks| == |outputs| == |alphas|
    && (forall i | 0 <= i < |checks| :: checks[i].o == outputs[i] && checks[i].to == DestinationOf(d, outputs[i]))
    && (forall i | 0 <= i < |checks| :: checks[i].spender == NotAsked <==> alphas[i] == None)
    && (forall i | 0 <= i < |checks| :: checks[i].fault == None ==> outputs[i].value < VALUE_LIMIT)
  }

  lemma ChecksAreAbout(d: Device, createdAt: u64, actions: seq<Action>, r: SigningRequest)
    requires |r.outputs| == |actions| == |r.alphas|
    ensures ChecksAbout(d, ChecksOf(d, createdAt, actions, r), r.outputs, r.alphas)
  {
    forall i | 0 <= i < |actions| ensures FaultOf(d, createdAt, actions[i], r.outputs[i]) == None ==> r.outputs[i].value < VALUE_LIMIT {
      OpenedExact(d, createdAt, actions[i], r.outputs[i]);
    }
  }

  /** For up to two actions nothing overflows: the loop succeeds exactly when every check passes. */
  lemma {:induction false} TakeAllExact(d: Device, checks: seq<Check>, outputs: seq<OutputOpening>, alphas: seq<Option<Scalar>>)
    requires ChecksAbout(d, checks, outputs, alphas) && |checks| <= ACTIONS
    ensures TakeAll(checks).Ok? <==> forall i | 0 <= i < |checks| :: Passes(checks[i])
    ensures TakeAll(checks).Ok? ==> TakeAll(checks).value == Tally(Payments(d, outputs), OwnValue(d, outputs), SpendCount(alphas))
    ensures TakeAll(checks).Ok? ==> TakeAll(checks).value.change <= |checks| * 0x8000_0000_0000_0000
    decreases |checks|
  {
    if checks != [] {
      var n := |checks| - 1;
      TakeAllExact(d, checks[..n], outputs[..n], alphas[..n]);
      assert forall i | 0 <= i < n :: checks[..n][i] == checks[i];
      if TakeAll(checks[..n]).Ok? { TakeOne(TakeAll(checks[..n]).value, n, checks[n]); }
    }
  }

  /** One check on top of a tally that has room for a note. */
  lemma TakeOne(t: Tally, i: nat, c: Check)
    requires t.change <= 0x8000_0000_0000_0000 && (c.fault == None ==> c.o.value < VALUE_LIMIT)
    ensures Take(t, i, c).Ok? <==> Passes(c)
    ensures Passes(c) ==> Take(t, i, c).value == Tally(
      if c.to == ToOther then t.payments + [PaymentOf(c.o)] else t.payments,
      t.change + (if c.to == ToOwner then c.o.value else 0), t.spends + (if c.spender == NotAsked then 0 else 1))
  {}

  /** A fault behind checks that pass is the result of the loop. */
  lemma {:induction false} TakeFault(d: Device, checks: seq<Check>, outputs: seq<OutputOpening>, alphas: seq<Option<Scalar>>, i: nat)
    requires ChecksAbout(d, checks, outputs, alphas) && |checks| <= ACTIONS && i < |checks|
    requires (forall k | 0 <= k < i :: Passes(checks[k])) && checks[i].fault.Some?
    ensures TakeAll(checks) == Err(FaultError(i, checks[i].fault.value))
  {
    TakeAllExact(d, checks[..i], outputs[..i], alphas[..i]);
    TakeSnoc(checks, i);
    TakeFails(checks, i + 1);
  }

  /** Time and actions of a body that decodes. */
  function Carried(d: Device, body: bytes): (r: Option<(u64, seq<Action>)>)
    ensures r.Some? ==> |r.value.1| == ACTIONS
  {
    var parsed := ParseTransferBody(body);
    if parsed.Err? then None
    else
      var inner := DecodeShielded(d.x.points, parsed.value.shielded);
      if inner.Err? then None else Some((parsed.value.createdAt, inner.value.1))
  }

  /** The body carries these actions at this time. */
  predicate BodyCarries(d: Device, body: bytes, createdAt: u64, actions: seq<Action>)
  {
    Carried(d, body) == Some((createdAt, actions))
  }

  /** The device decodes the body first, and reviews what it carries. */
  lemma ReviewOfCarried(d: Device, r: SigningRequest, createdAt: u64, actions: seq<Action>)
    requires BodyCarries(d, r.body, createdAt, actions)
    ensures |actions| == ACTIONS && ReviewOf(d, r) == ReviewDecoded(d, r, createdAt, actions)
  {}

  /** Everything about one action is in order. */
  predicate ActionOk(d: Device, createdAt: u64, a: Action, o: OutputOpening, alpha: Option<Scalar>)
  {
    FaultOf(d, createdAt, a, o) == None && SpenderOf(d, a, alpha) != Foreign
  }

  predicate ActionsOk(d: Device, createdAt: u64, actions: seq<Action>, r: SigningRequest)
  {
    |r.outputs| == |actions| == |r.alphas|
    && forall i | 0 <= i < |actions| :: ActionOk(d, createdAt, actions[i], r.outputs[i], r.alphas[i])
  }

  lemma ChecksPass(d: Device, createdAt: u64, actions: seq<Action>, r: SigningRequest)
    requires |r.outputs| == |actions| == |r.alphas|
    ensures var checks := ChecksOf(d, createdAt, actions, r);
      (forall i | 0 <= i < |checks| :: Passes(checks[i])) <==> ActionsOk(d, createdAt, actions, r)
  {
    var checks := ChecksOf(d, createdAt, actions, r);
    assert forall i | 0 <= i < |checks| :: Passes(checks[i]) <==> ActionOk(d, createdAt, actions[i], r.outputs[i], r.alphas[i]);
  }

  /**
   A request is accepted exactly when the body carries actions all of whose openings are right and
   whose alphas are for the device's own key, at least one of them; and then the review shows the
   foreign outputs of positive value, the own value, and the hash of the body.
   */
  lemma ReviewExact(d: Device, r: SigningRequest, createdAt: u64, actions: seq<Action>)
    requires BodyCarries(d, r.body, createdAt, actions)
    ensures ReviewOf(d, r).Ok? <==> SpendCount(r.alphas) > 0 && ActionsOk(d, createdAt, actions, r)
    ensures ReviewOf(d, r).Ok? ==>
      ReviewOf(d, r).value == Review(createdAt, Payments(d, r.outputs), OwnValue(d, r.outputs), d.sighash(r.body), SpendCount(r.alphas))
  {
    ReviewOfCarried(d, r, createdAt, actions);
    DecodedExact(d, r, createdAt, actions);
  }

  lemma DecodedExact(d: Device, r: SigningRequest, createdAt: u64, actions: seq<Action>)
    requires |actions| == ACTIONS
    ensures var v := ReviewDecoded(d, r, createdAt, actions);
      && (v.Ok? <==> SpendCount(r.alphas) > 0 && ActionsOk(d, createdAt, actions, r))
      && (v.Ok? ==> v.value == Review(createdAt, Payments(d, r.outputs), OwnValue(d, r.outputs), d.sighash(r.body), SpendCount(r.alphas)))
  {
    if |r.outputs| == ACTIONS && |r.alphas| == ACTIONS {
      ChecksAreAbout(d, createdAt, actions, r);
      ChecksPass(d, createdAt, actions, r);
      TakeAllExact(d, ChecksOf(d, createdAt, actions, r), r.outputs, r.alphas);
    }
  }

  /** A request with a fault is refused with the first one. */
  lemma FirstFault(d: Device, r: SigningRequest, createdAt: u64, actions: seq<Action>, i: nat, f: Fault)
    requires |actions| == ACTIONS && |r.outputs| == ACTIONS && |r.alphas| == ACTIONS && i < ACTIONS
    requires forall k | 0 <= k < i :: ActionOk(d, createdAt, actions[k], r.outputs[k], r.alphas[k])
    requires FaultOf(d, createdAt, actions[i], r.outputs[i]) == Some(f)
    ensures ReviewDecoded(d, r, createdAt, actions) == Err(FaultError(i, f))
  {
    var checks := ChecksOf(d, createdAt, actions, r);
    ChecksAreAbout(d, createdAt, actions, r);
    forall k | 0 <= k < i ensures Passes(checks[k]) {
      assert ActionOk(d, createdAt, actions[k], r.outputs[k], r.alphas[k]);
    }
    TakeFault(d, checks, r.outputs, r.alphas, i);
  }

  lemma ReviewedFaultless(d: Device, r: SigningRequest, createdAt: u64, actions: seq<Action>)
    requires BodyCarries(d, r.body, createdAt, actions) && ReviewOf(d, r).Ok?
    ensures |actions| == ACTIONS == |r.outputs|
    ensures forall i | 0 <= i < |actions| :: FaultOf(d, createdAt, actions[i], r.outputs[i]) == None
    ensures ReviewOf(d, r).value ==
      Review(createdAt, Payments(d, r.outputs), OwnValue(d, r.outputs), d.sighash(r.body), SpendCount(r.alphas))
  {
    ReviewExact(d, r, createdAt, actions);
    forall i | 0 <= i < |actions| ensures FaultOf(d, createdAt, actions[i], r.outputs[i]) == None {
      assert ActionOk(d, createdAt, actions[i], r.outputs[i], r.alphas[i]);
    }
  }

  lemma AcceptedCarries(d: Device, r: SigningRequest) returns (createdAt: u64, actions: seq<Action>)
    requires ReviewOf(d, r).Ok?
    ensures BodyCarries(d, r.body, createdAt, actions)
  {
    createdAt := ParseTransferBody(r.body).value.createdAt;
    actions := DecodeShielded(d.x.points, ParseTransferBody(r.body).value.shielded).value.1;
  }

  // ---------------------------------------------------------------- the review is a function of the body

  /** The hash queries of a memo opening. */
  ghost predicate MemoKnown(c: Crypto, known: Known, o: OutputOpening)
  {
    o.memo.Some? ==> o.memo.value.text in known.memos && [c.memoHash(o.memo.value.text), o.memo.value.rMemo] in known.poseidon
  }

  ghost predicate RequestKnown(c: Crypto, known: Known, r: SigningRequest)
  {
    forall o | o in r.outputs :: OpeningShape(o) && MemoKnown(c, known, o)
  }

  lemma MemosAgree(c: Crypto, known: Known, o: OutputOpening, p: OutputOpening)
    requires CollisionFree(c, known) && MemoKnown(c, known, o) && MemoKnown(c, known, p)
    requires MemoMatches(c, o) && MemoMatches(c, p) && o.memoCm == p.memoCm
    ensures o.memo == p.memo
  {
    if o.memo.Some? && p.memo.Some? {
      var s, t := [c.memoHash(o.memo.value.text), o.memo.value.rMemo], [c.memoHash(p.memo.value.text), p.memo.value.rMemo];
      assert s == t;
      assert s[0] == t[0] && s[1] == t[1];
    }
  }

  /** An action has only one opening. */
  lemma OneOpening(d: Device, known: Known, createdAt: u64, a: Action, o: OutputOpening, p: OutputOpening)
    requires SuiteLaws(d.c, d.x) && CollisionFree(d.c, known)
    requires OpeningShape(o) && OpeningShape(p) && MemoKnown(d.c, known, o) && MemoKnown(d.c, known, p)
    requires FaultOf(d, createdAt, a, o) == None && FaultOf(d, createdAt, a, p) == None
    ensures o == p
  {
    OpenedExact(d, createdAt, a, o);
    OpenedExact(d, createdAt, a, p);
    var m, n := OpenedNote(d, createdAt, a.nullifier, o).value, OpenedNote(d, createdAt, a.nullifier, p).value;
    var domain := Domain(d.community, d.community, a.nullifier);
    CiphertextsDetermine(d.c, d.x, domain, NoteWithSeed(m, o.rseed), NoteWithSeed(n, p.rseed), o.address, p.address,
      o.freeMemo, p.freeMemo, d.fvk.ovk, a.cvNet, Noise([], []));
    MemosAgree(d.c, known, o, p);
  }

  /**
   The review is a function of the body: two accepted requests with the same body bytes show the
   same time, payments, change and hash. Only which of its own spends the device signs may differ.
   */
  lemma ReviewIsFunctionOfBody(d: Device, known: Known, q: SigningRequest, r: SigningRequest)
    requires SuiteLaws(d.c, d.x) && CollisionFree(d.c, known)
    requires RequestKnown(d.c, known, q) && RequestKnown(d.c, known, r)
    requires q.body == r.body && ReviewOf(d, q).Ok? && ReviewOf(d, r).Ok?
    ensures q.outputs == r.outputs
    ensures ReviewOf(d, q).value.(spends := 0) == ReviewOf(d, r).value.(spends := 0)
  {
    var createdAt, actions := AcceptedCarries(d, q);
    ReviewedFaultless(d, q, createdAt, actions);
    ReviewedFaultless(d, r, createdAt, actions);
    OutputsAgree(d, known, createdAt, actions, q.outputs, r.outputs);
  }

  lemma OutputsAgree(d: Device, known: Known, createdAt: u64, actions: seq<Action>, os: seq<OutputOpening>, ps: seq<OutputOpening>)
    requires SuiteLaws(d.c, d.x) && CollisionFree(d.c, known) && |os| == |actions| == |ps|
    requires forall o | o in os :: OpeningShape(o) && MemoKnown(d.c, known, o)
    requires forall p | p in ps :: OpeningShape(p) && MemoKnown(d.c, known, p)
    requires forall i | 0 <= i < |actions| :: FaultOf(d, createdAt, actions[i], os[i]) == None
    requires forall i | 0 <= i < |actions| :: FaultOf(d, createdAt, actions[i], ps[i]) == None
    ensures os == ps
  {
    forall i | 0 <= i < |actions| ensures os[i] == ps[i] {
      assert os[i] in os && ps[i] in ps;
      OneOpening(d, known, createdAt, actions[i], os[i], ps[i]);
    }
  }

  // ---------------------------------------------------------------- nothing is hidden

  function SumPayments(payments: seq<Payment>): nat
  {
    if payments == [] then 0 else SumPayments(payments[..|payments| - 1]) + payments[|payments| - 1].value
  }

  function SumValues(outputs: seq<OutputOpening>): nat
  {
    if outputs == [] then 0 else SumValues(outputs[..|outputs| - 1]) + outputs[|outputs| - 1].value
  }

  /** Payments and change are all the created value. */
  lemma {:induction false} NothingHidden(d: Device, outputs: seq<OutputOpening>)
    ensures SumPayments(Payments(d, outputs)) + OwnValue(d, outputs) == SumValues(outputs)
  {
    if outputs != [] {
      var o := outputs[|outputs| - 1];
      NothingHidden(d, outputs[..|outputs| - 1]);
      var before := Payments(d, outputs[..|outputs| - 1]);
      assert (before + [PaymentOf(o)])[..|before|] == before;
    }
  }

  /** The created note of a proven action with an opened commitment has the value of the opening. */
  lemma OpenedValue(d: Device, known: Known, createdAt: u64, a: Action, o: OutputOpening, r: Spend)
    requires CollisionFree(d.c, known) && FaultOf(d, createdAt, a, o) == None && r in Satisfying(d.c) && r in Computed(d.c, known)
    requires CommitElements(OpenedNote(d, createdAt, a.nullifier, o).value) in known.poseidon && r.inst.cmNew == a.cm
    ensures r.x.newValue == o.value
  {
    OpenedExact(d, createdAt, a, o);
    var note, cells := OpenedNote(d, createdAt, a.nullifier, o).value, r.x.New(d.c, r.inst);
    CommitIsNative(cells);
    CommitmentBinds(d.c, known, note, NoteOf(cells));
  }

  /** The openings of a request, as hash queries. */
  ghost predicate OpeningsKnown(d: Device, known: Known, createdAt: u64, actions: seq<Action>, outputs: seq<OutputOpening>)
  {
    |outputs| == |actions| && forall i | 0 <= i < |actions| ::
      OpenedNote(d, createdAt, actions[i].nullifier, outputs[i]).Ok? ==>
        CommitElements(OpenedNote(d, createdAt, actions[i].nullifier, outputs[i]).value) in known.poseidon
  }

  predicate SameValues(h: seq<Spend>, outputs: seq<OutputOpening>)
  {
    |h| == |outputs| && forall i | 0 <= i < |h| :: h[i].x.newValue == outputs[i].value
  }

  lemma OpenedValues(d: Device, known: Known, createdAt: u64, actions: seq<Action>, outputs: seq<OutputOpening>, h: seq<Spend>)
    requires CollisionFree(d.c, known) && OpeningsKnown(d, known, createdAt, actions, outputs) && |h| == |actions|
    requires AllHold(d.c, h) && forall r | r in h :: r in Computed(d.c, known)
    requires forall i | 0 <= i < |h| :: h[i].inst.cmNew == actions[i].cm && FaultOf(d, createdAt, actions[i], outputs[i]) == None
    ensures SameValues(h, outputs)
  {
    forall i | 0 <= i < |h| ensures h[i].x.newValue == outputs[i].value {
      OpenedExact(d, createdAt, actions[i], outputs[i]);
      OpenedValue(d, known, createdAt, actions[i], outputs[i], h[i]);
    }
  }

  lemma {:induction false} SumsAgree(h: seq<Spend>, outputs: seq<OutputOpening>)
    requires SameValues(h, outputs)
    ensures Sum(Created, h) == SumValues(outputs)
    decreases |h|
  {
    if h != [] { SumsAgree(h[..|h| - 1], outputs[..|h| - 1]); }
  }

  /** A reviewed body shows the created value of its actions. */
  lemma ReviewedIsCreated(d: Device, known: Known, r: SigningRequest, createdAt: u64, actions: seq<Action>, h: seq<Spend>)
    requires CollisionFree(d.c, known) && ReviewOf(d, r).Ok? && BodyCarries(d, r.body, createdAt, actions)
    requires OpeningsKnown(d, known, createdAt, actions, r.outputs) && |h| == |actions|
    requires AllHold(d.c, h) && (forall x | x in h :: x in Computed(d.c, known))
    requires forall i | 0 <= i < |h| :: h[i].inst.cmNew == actions[i].cm
    ensures SumPayments(ReviewOf(d, r).value.payments) + ReviewOf(d, r).value.change == Sum(Created, h)
  {
    ReviewedFaultless(d, r, createdAt, actions);
    NothingHidden(d, r.outputs);
    OpenedValues(d, known, createdAt, actions, r.outputs, h);
    SumsAgree(h, r.outputs);
  }

  /** The spends behind an accepted bundle, as the reviewed actions publish them. */
  lemma SpendsBehind(v: Verifier, c: Crypto, known: Known, e: Extractor, b: Bundle, sighash: bytes)
    requires NoZeroDivisors() && CoordinatesInjective(c) && SoundVerifier(v, c, e)
    requires HasCoordinates(b) && VerifyBundleCrypto(v, c, b, sighash).Ok? && BundleKnown(c, known, e, b, sighash)
    ensures var h := SpendsOf(c, e, b);
      && |h| == |b.actions| && AllHold(c, h) && (forall x | x in h :: x in Computed(c, known))
      && (forall i | 0 <= i < |h| :: h[i].inst.cmNew == b.actions[i].cm) && Sum(Created, h) == Sum(Decayed, h)
  {
    AcceptedConserves(v, c, known, e, b, sighash);
  }

  /**
   What the device shows is what the ledger moves: for a body that also passes the node's
   verification, payments and change are together the decayed value of the spent notes.
   */
  lemma ReviewedIsMoved(d: Device, known: Known, v: Verifier, e: Extractor, r: SigningRequest, b: Bundle)
    requires NoZeroDivisors() && CoordinatesInjective(d.c) && CollisionFree(d.c, known) && SoundVerifier(v, d.c, e)
    requires ReviewOf(d, r).Ok? && BodyCarries(d, r.body, b.now, b.actions) && HasCoordinates(b)
    requires OpeningsKnown(d, known, b.now, b.actions, r.outputs)
    requires VerifyBundleCrypto(v, d.c, b, d.sighash(r.body)).Ok? && BundleKnown(d.c, known, e, b, d.sighash(r.body))
    ensures SumPayments(ReviewOf(d, r).value.payments) + ReviewOf(d, r).value.change == Sum(Decayed, SpendsOf(d.c, e, b))
  {
    SpendsBehind(v, d.c, known, e, b, d.sighash(r.body));
    ReviewedIsCreated(d, known, r, b.now, b.actions, SpendsOf(d.c, e, b));
  }
}
