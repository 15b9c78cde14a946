/** The signing request on its way from the server to the device: one request, one encoding. */
module SigningRequests {
  import opened Group
  import opened Bytes
  import opened Notes
  import opened TreeState
  import opened Protobuf
  import opened Wire
  import opened NoteEncryption
  import opened Signer

  const MAX_REQUEST_SIZE: nat := 0x1_0000

  datatype OpeningMessage = OpeningMessage(
    address: bytes, value: u64, kind: u32, expiryEpoch: u64, rseed: bytes, memoCm: bytes, freeMemo: bytes,
    memoText: bytes, rMemo: bytes)

  datatype RequestMessage = RequestMessage(body: bytes, outputs: seq<OpeningMessage>, alphas: seq<bytes>)

  function OpeningKinds(): seq<Kind>
  {
    [KBytes, KUint64, KUint32, KUint64, KBytes, KBytes, KBytes, KBytes, KBytes]
  }

  function OpeningSlots(m: OpeningMessage): seq<Slot>
  {
    [BytesSlot(m.address), Uint64Slot(m.value), Uint32Slot(m.kind), Uint64Slot(m.expiryEpoch), BytesSlot(m.rseed),
     BytesSlot(m.memoCm), BytesSlot(m.freeMemo), BytesSlot(m.memoText), BytesSlot(m.rMemo)]
  }

  lemma OpeningFits(m: OpeningMessage)
    ensures AllFit(OpeningKinds(), OpeningSlots(m))
  {
    var kinds, t := OpeningKinds(), OpeningSlots(m);
    assert Fits(kinds[0], t[0]) && Fits(kinds[1], t[1]) && Fits(kinds[2], t[2]) && Fits(kinds[3], t[3]) && Fits(kinds[4], t[4]);
    assert Fits(kinds[5], t[5]) && Fits(kinds[6], t[6]) && Fits(kinds[7], t[7]) && Fits(kinds[8], t[8]);
  }

  function OpeningFrom(t: seq<Slot>): OpeningMessage
    requires AllFit(OpeningKinds(), t)
  {
    var kinds := OpeningKinds();
    assert Fits(kinds[0], t[0]) && Fits(kinds[1], t[1]) && Fits(kinds[2], t[2]) && Fits(kinds[3], t[3]) && Fits(kinds[4], t[4]);
    assert Fits(kinds[5], t[5]) && Fits(kinds[6], t[6]) && Fits(kinds[7], t[7]) && Fits(kinds[8], t[8]);
    OpeningMessage(t[0].b, t[1].v, t[2].n, t[3].v, t[4].b, t[5].b, t[6].b, t[7].b, t[8].b)
  }

  function EncodeOpening(m: OpeningMessage): bytes { EncodeMessage(OpeningSlots(m)) }

  function DecodeOpening(s: bytes): Option<OpeningMessage>
  {
    var slots := DecodeMessage(OpeningKinds(), s);
    if slots.None? then None else Some(OpeningFrom(slots.value))
  }

  function EncodeOpenings(ms: seq<OpeningMessage>): (items: seq<bytes>)
    ensures |items| == |ms|
  {
    seq(|ms|, i requires 0 <= i < |ms| => EncodeOpening(ms[i]))
  }

  function DecodeOpenings(items: seq<bytes>): Option<seq<OpeningMessage>>
  {
    AllSome(seq(|items|, i requires 0 <= i < |items| => DecodeOpening(items[i])))
  }

  function RequestKinds(): seq<Kind> { [KBytes, KRepeated, KRepeated] }

  function RequestSlots(m: RequestMessage): seq<Slot>
  {
    [BytesSlot(m.body), RepeatedSlot(EncodeOpenings(m.outputs)), RepeatedSlot(m.alphas)]
  }

  function EncodeRequestMessage(m: RequestMessage): bytes { EncodeMessage(RequestSlots(m)) }

  function DecodeRequestMessage(s: bytes): Option<RequestMessage>
  {
    var t := DecodeMessage(RequestKinds(), s);
    if t.None? then None
    else
      assert Fits(RequestKinds()[0], t.value[0]) && Fits(RequestKinds()[1], t.value[1]) && Fits(RequestKinds()[2], t.value[2]);
      RequestFrom(t.value[0].b, t.value[1].items, t.value[2].items)
  }

  function RequestFrom(body: bytes, items: seq<bytes>, alphas: seq<bytes>): Option<RequestMessage>
  {
    var outputs := DecodeOpenings(items);
    if outputs.None? then None else Some(RequestMessage(body, outputs.value, alphas))
  }

  // ---------------------------------------------------------------- the request

  /** `to_raw` of an address: diversifier and compressed point. */
  function AddressBytes(k: PointCodec, a: Address): bytes { a.d + k.encode(a.pkD) }

  function AddressFromBytes(k: PointCodec, s: bytes): Option<Address>
  {
    if |s| != 43 then None
    else
      var d: Diversifier, p := s[..11], k.decode(s[11..]);
      if p.None? || p.value == IDENTITY then None else Some(Address(d, p.value))
  }

  function OpeningToMessage(k: PointCodec, o: OutputOpening): OpeningMessage
  {
    OpeningMessage(AddressBytes(k, o.address), o.value, KindNumber(o.kind), o.expiryEpoch, o.rseed, Repr(o.memoCm),
      o.freeMemo, if o.memo.None? then [] else o.memo.value.text, if o.memo.None? then [] else Repr(o.memo.value.rMemo))
  }

  function MemoFrom(text: bytes, rMemo: bytes): Option<Option<MemoOpening>>
  {
    if text == [] && rMemo == [] then Some(None)
    else if |text| != MEMO_LEN || |rMemo| != 32 then None
    else
      var r := BaseFromBytes(rMemo);
      if r.None? then None else Some(Some(MemoOpening(text, r.value)))
  }

  function OpeningFromMessage(k: PointCodec, m: OpeningMessage): Option<OutputOpening>
  {
    var memo, address := MemoFrom(m.memoText, m.rMemo), AddressFromBytes(k, m.address);
    if memo.None? || address.None? || m.kind > 1 || |m.rseed| != 32 || |m.memoCm| != 32 || |m.freeMemo| != FREE_MEMO_SIZE then None
    else
      var memoCm := BaseFromBytes(m.memoCm);
      if memoCm.None? then None
      else Some(OutputOpening(address.value, m.value, if m.kind == 0 then Normal else Deferred, m.expiryEpoch, m.rseed,
                              memoCm.value, m.freeMemo, memo.value))
  }

  function AlphaBytes(alpha: Option<Scalar>): bytes { if alpha.None? then [] else Repr(alpha.value) }

  function AlphaFromBytes(s: bytes): Option<Option<Scalar>>
  {
    if s == [] then Some(None)
    else if |s| != 32 then None
    else
      var alpha := ScalarFromBytes(s);
      if alpha.None? then None else Some(Some(alpha.value))
  }

  function OpeningsToMessages(k: PointCodec, os: seq<OutputOpening>): (ms: seq<OpeningMessage>)
    ensures |ms| == |os|
  {
    seq(|os|, i requires 0 <= i < |os| => OpeningToMessage(k, os[i]))
  }

  function OpeningsFromMessages(k: PointCodec, ms: seq<OpeningMessage>): Option<seq<OutputOpening>>
  {
    AllSome(seq(|ms|, i requires 0 <= i < |ms| => OpeningFromMessage(k, ms[i])))
  }

  function AlphasToBytes(alphas: seq<Option<Scalar>>): (s: seq<bytes>)
    ensures |s| == |alphas|
  {
    seq(|alphas|, i requires 0 <= i < |alphas| => AlphaBytes(alphas[i]))
  }

  function AlphasFromBytes(s: seq<bytes>): Option<seq<Option<Scalar>>>
  {
    AllSome(seq(|s|, i requires 0 <= i < |s| => AlphaFromBytes(s[i])))
  }

  /** `SigningRequest::encode` */
  function Encode(k: PointCodec, r: SigningRequest): bytes
  {
    EncodeRequestMessage(ToMessage(k, r))
  }

  function ToMessage(k: PointCodec, r: SigningRequest): RequestMessage
  {
    RequestMessage(r.body, OpeningsToMessages(k, r.outputs), AlphasToBytes(r.alphas))
  }

  function FromMessage(k: PointCodec, m: RequestMessage): Option<SigningRequest>
  {
    var outputs, alphas := OpeningsFromMessages(k, m.outputs), AlphasFromBytes(m.alphas);
    if outputs.None? || alphas.None? then None else Some(SigningRequest(m.body, outputs.value, alphas.value))
  }

  /** `SigningRequest::decode`; every failure is the same error. */
  function Decode(k: PointCodec, s: bytes): Option<SigningRequest>
  {
    if |s| > MAX_REQUEST_SIZE then None
    else
      var m := DecodeRequestMessage(s);
      if m.None? || EncodeRequestMessage(m.value) != s then None else FromMessage(k, m.value)
  }

  // ---------------------------------------------------------------- one request, one encoding

  predicate WellFormedOpening(o: OutputOpening) { OpeningShape(o) && o.address.pkD != IDENTITY }

  predicate WellFormedRequest(r: SigningRequest) { forall o | o in r.outputs :: WellFormedOpening(o) }

  lemma AddressExact(k: PointCodec, s: bytes, a: Address)
    requires CanonicalPoints(k)
    ensures AddressFromBytes(k, s) == Some(a) <==> a.pkD != IDENTITY && s == AddressBytes(k, a)
  {
    if |s| == 43 { assert s == s[..11] + s[11..]; }
    if s == AddressBytes(k, a) { assert s[..11] == a.d && s[11..] == k.encode(a.pkD); }
  }

  lemma MemoExact(text: bytes, rMemo: bytes, memo: Option<MemoOpening>)
    ensures MemoFrom(text, rMemo) == Some(memo) <==>
      && text == (if memo.None? then [] else memo.value.text) && rMemo == (if memo.None? then [] else Repr(memo.value.rMemo))
      && (memo.Some? ==> |memo.value.text| == MEMO_LEN)
  {
    if |rMemo| == 32 && memo.Some? { BaseCodec(memo.value.rMemo, rMemo); }
  }

  lemma OpeningExact(k: PointCodec, m: OpeningMessage, o: OutputOpening)
    requires CanonicalPoints(k)
    ensures OpeningFromMessage(k, m) == Some(o) <==> WellFormedOpening(o) && m == OpeningToMessage(k, o)
  {
    AddressExact(k, m.address, o.address);
    MemoExact(m.memoText, m.rMemo, o.memo);
    if |m.memoCm| == 32 { BaseCodec(o.memoCm, m.memoCm); }
  }

  lemma OpeningsExact(k: PointCodec, ms: seq<OpeningMessage>, os: seq<OutputOpening>)
    requires CanonicalPoints(k)
    ensures OpeningsFromMessages(k, ms) == Some(os) <==> (forall o | o in os :: WellFormedOpening(o)) && ms == OpeningsToMessages(k, os)
  {
    var rs := seq(|ms|, i requires 0 <= i < |ms| => OpeningFromMessage(k, ms[i]));
    AllSomeExact(rs, os);
    if |ms| == |os| {
      forall i | 0 <= i < |ms|
        ensures rs[i] == Some(os[i]) <==> WellFormedOpening(os[i]) && ms[i] == OpeningsToMessages(k, os)[i]
      {
        OpeningExact(k, ms[i], os[i]);
      }
    }
  }

  lemma AlphaExact(s: bytes, alpha: Option<Scalar>)
    ensures AlphaFromBytes(s) == Some(alpha) <==> s == AlphaBytes(alpha)
  {
    if |s| == 32 && alpha.Some? { ScalarCodec(alpha.value, s); }
  }

  lemma AlphasExact(s: seq<bytes>, alphas: seq<Option<Scalar>>)
    ensures AlphasFromBytes(s) == Some(alphas) <==> s == AlphasToBytes(alphas)
  {
    var rs := seq(|s|, i requires 0 <= i < |s| => AlphaFromBytes(s[i]));
    AllSomeExact(rs, alphas);
    if |s| == |alphas| {
      forall i | 0 <= i < |s| ensures rs[i] == Some(alphas[i]) <==> s[i] == AlphasToBytes(alphas)[i] {
        AlphaExact(s[i], alphas[i]);
      }
    }
  }

  lemma MessageExact(k: PointCodec, m: RequestMessage, r: SigningRequest)
    requires CanonicalPoints(k)
    ensures FromMessage(k, m) == Some(r) <==> WellFormedRequest(r) && m == ToMessage(k, r)
  {
    OpeningsExact(k, m.outputs, r.outputs);
    AlphasExact(m.alphas, r.alphas);
  }

  lemma OpeningBack(m: OpeningMessage)
    requires |EncodeOpening(m)| < 0x1_0000_0000_0000_0000
    ensures DecodeOpening(EncodeOpening(m)) == Some(m)
  {
    OpeningFits(m);
    ShortIsSized(MessageFields(1, OpeningSlots(m)));
    MessageBack(OpeningKinds(), OpeningSlots(m));
  }

  predicate ShortItems(items: seq<bytes>) { forall b | b in items :: |b| < 0x1_0000_0000_0000_0000 }

  lemma OpeningsBack(ms: seq<OpeningMessage>)
    requires ShortItems(EncodeOpenings(ms))
    ensures DecodeOpenings(EncodeOpenings(ms)) == Some(ms)
  {
    var items := EncodeOpenings(ms);
    forall i | 0 <= i < |ms| ensures DecodeOpening(items[i]) == Some(ms[i]) {
      assert items[i] in items;
      OpeningBack(ms[i]);
    }
    AllSomeExact(seq(|items|, i requires 0 <= i < |items| => DecodeOpening(items[i])), ms);
  }

  lemma RequestFits(m: RequestMessage)
    ensures AllFit(RequestKinds(), RequestSlots(m))
  {
    var kinds, t := RequestKinds(), RequestSlots(m);
    assert Fits(kinds[0], t[0]) && Fits(kinds[1], t[1]) && Fits(kinds[2], t[2]);
  }

  /** Items of a repeated field appear in the fields of the message. */
  lemma RepeatedSized(m: RequestMessage)
    requires Sized(MessageFields(1, RequestSlots(m)))
    ensures ShortItems(EncodeOpenings(m.outputs))
  {
    var t, items := RequestSlots(m), EncodeOpenings(m.outputs);
    var second := Tagged(2, SlotValues(t[1]));
    assert MessageFields(1, t) == Tagged(1, SlotValues(t[0])) + MessageFields(2, t[1..]);
    assert t[1..][0] == t[1];
    assert MessageFields(2, t[1..]) == second + MessageFields(3, t[1..][1..]);
    forall i | 0 <= i < |items| ensures |items[i]| < 0x1_0000_0000_0000_0000 {
      assert second[i] == WireField(2, Protobuf.Bytes(items[i]));
      assert second[i] in MessageFields(2, t[1..]);
      assert second[i] in MessageFields(1, t);
    }
  }

  lemma RequestBack(m: RequestMessage)
    requires |EncodeRequestMessage(m)| <= MAX_REQUEST_SIZE
    ensures DecodeRequestMessage(EncodeRequestMessage(m)) == Some(m)
  {
    RequestFits(m);
    ShortIsSized(MessageFields(1, RequestSlots(m)));
    MessageBack(RequestKinds(), RequestSlots(m));
    RepeatedSized(m);
    OpeningsBack(m.outputs);
  }

  /**
   One request, one encoding: bytes decode to a request exactly when it is well-formed, they are its
   encoding, and they are not longer than the bound. A longer request is encoded but never decoded.
   */
  lemma DecodeExact(k: PointCodec, s: bytes, r: SigningRequest)
    requires CanonicalPoints(k)
    ensures Decode(k, s) == Some(r) <==> WellFormedRequest(r) && s == Encode(k, r) && |s| <= MAX_REQUEST_SIZE
  {
    if WellFormedRequest(r) && s == Encode(k, r) && |s| <= MAX_REQUEST_SIZE {
      RequestBack(ToMessage(k, r));
      MessageExact(k, ToMessage(k, r), r);
    }
    if Decode(k, s) == Some(r) {
      MessageExact(k, DecodeRequestMessage(s).value, r);
    }
  }
}
