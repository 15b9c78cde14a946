/** The transaction body of a shielded transfer: a parser that accepts exactly its fields, each once. */
module TransferBodies {
  import opened Widths
  import opened Bytes
  import opened Notes
  import opened TreeState
  import opened Protobuf
  import opened Wire

  datatype TransferBody = TransferBody(createdAt: u64, versionNumber: u32, shielded: bytes, memos: nat)

  // ---------------------------------------------------------------- the time stamp

  datatype Stamp = Stamp(seconds: Option<u64>, nanos: Option<u64>)

  /** One field of the time stamp. */
  function TakeStamp(t: Stamp, f: WireField): Result<Stamp, WireError>
  {
    if f.tag == 1 && f.value.Varint? && t.seconds.None? then Ok(t.(seconds := Some(f.value.v)))
    else if f.tag == 2 && f.value.Varint? && t.nanos.None? then Ok(t.(nanos := Some(f.value.v)))
    else Err(NotCanonical("created_at"))
  }

  function StampOf(fs: seq<WireField>): Result<Stamp, WireError>
  {
    if fs == [] then Ok(Stamp(None, None))
    else
      var before := StampOf(fs[..|fs| - 1]);
      if before.Err? then before else TakeStamp(before.value, fs[|fs| - 1])
  }

  function OrZero(v: Option<u64>): u64 { if v.None? then 0 else v.value }

  function StampSeconds(t: Stamp): Result<u64, WireError>
  {
    if OrZero(t.nanos) != 0 || OrZero(t.seconds) >= TIMESTAMP_LIMIT then Err(NotCanonical("created_at"))
    else Ok(OrZero(t.seconds))
  }

  /** `parse_timestamp` */
  function ParseTimestamp(s: bytes): Result<u64, WireError>
  {
    var fs := Fields(s);
    if fs.None? then Err(WireError.Protobuf)
    else
      var t := StampOf(fs.value);
      if t.Err? then Err(t.error) else StampSeconds(t.value)
  }

  method ParseTimestampLoop(s: bytes) returns (r: Result<u64, WireError>)
    ensures r == ParseTimestamp(s)
  {
    var fs := FieldsLoop(s);
    if fs.None? {
      return Err(WireError.Protobuf);
    }
    var t := Stamp(None, None);
    for i := 0 to |fs.value|
      invariant StampOf(fs.value[..i]) == Ok(t)
    {
      assert fs.value[..i + 1][..i] == fs.value[..i];
      var next := TakeStamp(t, fs.value[i]);
      if next.Err? {
        StampFails(fs.value, i + 1);
        return Err(next.error);
      }
      t := next.value;
    }
    assert fs.value[..|fs.value|] == fs.value;
    return StampSeconds(t);
  }

  /** The first error is the result. */
  lemma {:induction false} StampFails(fs: seq<WireField>, i: nat)
    requires i <= |fs| && StampOf(fs[..i]).Err?
    ensures StampOf(fs) == StampOf(fs[..i])
    decreases |fs| - i
  {
    if i < |fs| {
      assert fs[..i + 1][..i] == fs[..i];
      StampFails(fs, i + 1);
    } else {
      assert fs[..i] == fs;
    }
  }

  // ---------------------------------------------------------------- the body

  const MEMOS: u32 := 1
  const CREATED_AT: u32 := 2
  const VERSION_NUMBER: u32 := 3
  const TYPE: u32 := 4
  const OTHER_COMMUNITY_UUID: u32 := 5
  const SHIELDED_TRANSFER: u32 := 6

  datatype BodySlots = BodySlots(
    createdAt: Option<u64>, version: Option<u64>, transferType: Option<u64>, other: Option<bytes>,
    shielded: Option<bytes>, memos: nat)

  /** The time stamp in a field. */
  function StampIn(f: WireField): Result<u64, WireError>
  {
    if f.value.Bytes? then ParseTimestamp(f.value.b) else Err(UnsupportedBody(f.tag))
  }

  /** One field of the body. */
  function TakeField(t: BodySlots, f: WireField): Result<BodySlots, WireError> { TakeWith(t, f, StampIn(f)) }

  function TakeWith(t: BodySlots, f: WireField, seconds: Result<u64, WireError>): Result<BodySlots, WireError>
  {
    match (f.tag, f.value)
    case (1, Bytes(_)) => Ok(t.(memos := t.memos + 1))
    case (2, Bytes(_)) =>
      if seconds.Err? then Err(seconds.error)
      else if t.createdAt.Some? then Err(NotCanonical("created_at"))
      else Ok(t.(createdAt := Some(seconds.value)))
    case (3, Varint(v)) =>
      if v >= 0x1_0000_0000 then Err(WireError.Protobuf)
      else if t.version.Some? then Err(NotCanonical("version_number"))
      else Ok(t.(version := Some(v)))
    case (4, Varint(v)) =>
      if t.transferType.Some? then Err(NotCanonical("type")) else Ok(t.(transferType := Some(v)))
    case (5, Bytes(uuid)) =>
      if t.other.Some? then Err(NotCanonical("other_community_uuid")) else Ok(t.(other := Some(uuid)))
    case (6, Bytes(bundle)) =>
      if t.shielded.Some? then Err(NotCanonical("shielded_transfer")) else Ok(t.(shielded := Some(bundle)))
    case _ => Err(UnsupportedBody(f.tag))
  }

  const EMPTY_BODY: BodySlots := BodySlots(None, None, None, None, None, 0)

  function SlotsOf(fs: seq<WireField>): Result<BodySlots, WireError>
  {
    if fs == [] then Ok(EMPTY_BODY)
    else
      var before := SlotsOf(fs[..|fs| - 1]);
      if before.Err? then before else TakeField(before.value, fs[|fs| - 1])
  }

  function BodyOf(t: BodySlots): Result<TransferBody, WireError>
    requires t.version.Some? ==> t.version.value < 0x1_0000_0000
  {
    if OrZero(t.transferType) != 0 || (t.other.Some? && t.other.value != []) then Err(CrossCommunityNotSupported)
    else if t.createdAt.None? then Err(MissingField("created_at"))
    else if t.shielded.None? then Err(MissingField("shielded_transfer"))
    else Ok(TransferBody(t.createdAt.value, OrZero(t.version), t.shielded.value, t.memos))
  }

  lemma {:induction false} VersionFits(fs: seq<WireField>)
    ensures SlotsOf(fs).Ok? && SlotsOf(fs).value.version.Some? ==> SlotsOf(fs).value.version.value < 0x1_0000_0000
  {
    if fs != [] { VersionFits(fs[..|fs| - 1]); }
  }

  /** `parse_transfer_body` */
  function ParseTransferBody(body: bytes): Result<TransferBody, WireError>
  {
    var fs := Fields(body);
    if fs.None? then Err(WireError.Protobuf)
    else
      var t := SlotsOf(fs.value);
      VersionFits(fs.value);
      if t.Err? then Err(t.error) else BodyOf(t.value)
  }

  method ParseTransferBodyLoop(body: bytes) returns (r: Result<TransferBody, WireError>)
    ensures r == ParseTransferBody(body)
  {
    var fs := FieldsLoop(body);
    if fs.None? {
      return Err(WireError.Protobuf);
    }
    var t := EMPTY_BODY;
    for i := 0 to |fs.value|
      invariant SlotsOf(fs.value[..i]) == Ok(t)
    {
      assert fs.value[..i + 1][..i] == fs.value[..i];
      var next := TakeField(t, fs.value[i]);
      if next.Err? {
        SlotsFail(fs.value, i + 1);
        return Err(next.error);
      }
      t := next.value;
    }
    assert fs.value[..|fs.value|] == fs.value;
    VersionFits(fs.value);
    return BodyOf(t);
  }

  lemma {:induction false} SlotsFail(fs: seq<WireField>, i: nat)
    requires i <= |fs| && SlotsOf(fs[..i]).Err?
    ensures SlotsOf(fs) == SlotsOf(fs[..i])
    decreases |fs| - i
  {
    if i < |fs| {
      assert fs[..i + 1][..i] == fs[..i];
      SlotsFail(fs, i + 1);
    } else {
      assert fs[..i] == fs;
    }
  }

  // ---------------------------------------------------------------- what the parser accepts

  /** A field a local shielded transfer may have. */
  predicate Allowed(f: WireField) { AllowedWith(f, StampIn(f)) }

  predicate AllowedWith(f: WireField, seconds: Result<u64, WireError>)
  {
    || (f.tag == MEMOS && f.value.Bytes?)
    || (f.tag == CREATED_AT && f.value.Bytes? && seconds.Ok?)
    || (f.tag == VERSION_NUMBER && f.value.Varint? && f.value.v < 0x1_0000_0000)
    || (f.tag == TYPE && f.value.Varint?)
    || (f.tag == OTHER_COMMUNITY_UUID && f.value.Bytes?)
    || (f.tag == SHIELDED_TRANSFER && f.value.Bytes?)
  }

  predicate AtMostOnce(fs: seq<WireField>, tag: u32) { |ValuesOf(fs, tag)| <= 1 }

  predicate StrictFields(fs: seq<WireField>)
  {
    && (forall f | f in fs :: Allowed(f))
    && AtMostOnce(fs, CREATED_AT) && AtMostOnce(fs, VERSION_NUMBER) && AtMostOnce(fs, TYPE)
    && AtMostOnce(fs, OTHER_COMMUNITY_UUID) && AtMostOnce(fs, SHIELDED_TRANSFER)
  }

  predicate SlotIs<T(==)>(slot: Option<T>, values: seq<FieldValue>, read: FieldValue -> T)
  {
    if values == [] then slot.None? else slot.Some? && slot.value == read(values[0])
  }

  function ReadStamp(v: FieldValue): u64 { if v.Bytes? && ParseTimestamp(v.b).Ok? then ParseTimestamp(v.b).value else 0 }
  function ReadNumber(v: FieldValue): u64 { if v.Varint? then v.v else 0 }
  function ReadBytes(v: FieldValue): bytes { if v.Bytes? then v.b else [] }

  /** The slots hold the one value of each tag. */
  predicate SlotsHold(t: BodySlots, fs: seq<WireField>)
  {
    && SlotIs(t.createdAt, ValuesOf(fs, CREATED_AT), ReadStamp)
    && SlotIs(t.version, ValuesOf(fs, VERSION_NUMBER), ReadNumber)
    && SlotIs(t.transferType, ValuesOf(fs, TYPE), ReadNumber)
    && SlotIs(t.other, ValuesOf(fs, OTHER_COMMUNITY_UUID), ReadBytes)
    && SlotIs(t.shielded, ValuesOf(fs, SHIELDED_TRANSFER), ReadBytes)
    && t.memos == |ValuesOf(fs, MEMOS)|
  }

  lemma ValuesSnoc(fs: seq<WireField>, f: WireField, tag: u32)
    ensures ValuesOf(fs + [f], tag) == ValuesOf(fs, tag) + if f.tag == tag then [f.value] else []
  {
    ValuesAppend(fs, [f], tag);
  }

  /** The loop succeeds exactly on allowed fields without repetition, and collects their values. */
  lemma {:induction false} SlotsExact(fs: seq<WireField>)
    ensures SlotsOf(fs).Ok? <==> StrictFields(fs)
    ensures SlotsOf(fs).Ok? ==> SlotsHold(SlotsOf(fs).value, fs)
    decreases |fs|
  {
    if fs != [] {
      var before, f := fs[..|fs| - 1], fs[|fs| - 1];
      SlotsExact(before);
      assert fs == before + [f];
      SnocAll(before, f);
      StrictSnoc(before, f);
      if SlotsOf(before).Ok? { TakeExact(SlotsOf(before).value, before, f); }
    }
  }

  lemma SnocAll(before: seq<WireField>, f: WireField)
    ensures forall tag: u32 :: ValuesOf(before + [f], tag) == ValuesOf(before, tag) + if f.tag == tag then [f.value] else []
  {
    forall tag: u32 ensures ValuesOf(before + [f], tag) == ValuesOf(before, tag) + if f.tag == tag then [f.value] else [] {
      ValuesSnoc(before, f, tag);
    }
  }

  lemma StrictSnoc(before: seq<WireField>, f: WireField)
    ensures StrictFields(before + [f]) <==>
      StrictFields(before) && Allowed(f) && (f.tag == MEMOS || ValuesOf(before, f.tag) == [])
  {
    SnocAll(before, f);
    assert (before + [f])[|before|] == f;
    assert forall g | g in before :: g in before + [f];
  }

  lemma TakeExact(t: BodySlots, before: seq<WireField>, f: WireField)
    requires StrictFields(before) && SlotsHold(t, before)
    ensures TakeField(t, f).Ok? <==> Allowed(f) && (f.tag == MEMOS || ValuesOf(before, f.tag) == [])
    ensures TakeField(t, f).Ok? ==> SlotsHold(TakeField(t, f).value, before + [f])
  {
    TakeAllowed(t, before, f);
    if TakeField(t, f).Ok? { TakeHolds(t, before, f); }
  }

  lemma TakeAllowed(t: BodySlots, before: seq<WireField>, f: WireField)
    requires SlotsHold(t, before)
    ensures TakeField(t, f).Ok? <==> Allowed(f) && (f.tag == MEMOS || ValuesOf(before, f.tag) == [])
  {
    TakeAllowedWith(t, before, f, StampIn(f));
  }

  lemma TakeAllowedWith(t: BodySlots, before: seq<WireField>, f: WireField, seconds: Result<u64, WireError>)
    requires SlotsHold(t, before)
    ensures TakeWith(t, f, seconds).Ok? <==> AllowedWith(f, seconds) && (f.tag == MEMOS || ValuesOf(before, f.tag) == [])
  {}

  lemma TakeHolds(t: BodySlots, before: seq<WireField>, f: WireField)
    requires SlotsHold(t, before) && TakeField(t, f).Ok?
    ensures SlotsHold(TakeField(t, f).value, before + [f])
  {
    ValuesSnoc(before, f, MEMOS);
    ValuesSnoc(before, f, CREATED_AT);
    ValuesSnoc(before, f, VERSION_NUMBER);
    ValuesSnoc(before, f, TYPE);
    ValuesSnoc(before, f, OTHER_COMMUNITY_UUID);
    ValuesSnoc(before, f, SHIELDED_TRANSFER);
  }

  /**
   The parser accepts a body exactly when it consists of allowed fields, none of the singular ones
   repeated, with one time stamp, one bundle and nothing that points to another community.
   */
  lemma BodyExact(body: bytes, b: TransferBody)
    ensures ParseTransferBody(body) == Ok(b) <==>
      && Fields(body).Some? && StrictFields(Fields(body).value)
      && var fs := Fields(body).value;
      && ValuesOf(fs, CREATED_AT) != [] && b.createdAt == ReadStamp(ValuesOf(fs, CREATED_AT)[0])
      && ValuesOf(fs, SHIELDED_TRANSFER) != [] && b.shielded == ReadBytes(ValuesOf(fs, SHIELDED_TRANSFER)[0])
      && b.versionNumber == (if ValuesOf(fs, VERSION_NUMBER) == [] then 0 else ReadNumber(ValuesOf(fs, VERSION_NUMBER)[0]))
      && (ValuesOf(fs, TYPE) == [] || ReadNumber(ValuesOf(fs, TYPE)[0]) == 0)
      && (ValuesOf(fs, OTHER_COMMUNITY_UUID) == [] || ReadBytes(ValuesOf(fs, OTHER_COMMUNITY_UUID)[0]) == [])
      && b.memos == |ValuesOf(fs, MEMOS)|
  {
    if Fields(body).Some? {
      SlotsExact(Fields(body).value);
      VersionFits(Fields(body).value);
    }
  }

  // ---------------------------------------------------------------- round trip

  function TimestampFields(seconds: u64): seq<WireField>
  {
    if seconds == 0 then [] else [WireField(1, Varint(seconds))]
  }

  function BodyFields(createdAt: u64, version: u32, shielded: bytes): seq<WireField>
  {
    [WireField(CREATED_AT, Bytes(EncodeFields(TimestampFields(createdAt))))]
    + (if version == 0 then [] else [WireField(VERSION_NUMBER, Varint(version))])
    + (if shielded == [] then [] else [WireField(SHIELDED_TRANSFER, Bytes(shielded))])
  }

  /** `encode_transfer_body`: default values are left out, the time stamp message never is. */
  function EncodeTransferBody(createdAt: u64, version: u32, shielded: bytes): bytes
  {
    EncodeFields(BodyFields(createdAt, version, shielded))
  }

  lemma TimestampBack(seconds: u64)
    ensures ParseTimestamp(EncodeFields(TimestampFields(seconds)))
      == if seconds < TIMESTAMP_LIMIT then Ok(seconds) else Err(NotCanonical("created_at"))
    ensures |EncodeFields(TimestampFields(seconds))| <= 20
  {
    var fs := TimestampFields(seconds);
    FieldsBack(fs);
    EncodedLength(fs);
    if seconds != 0 {
      assert fs[..0] == [] && fs[1..] == [];
      assert StampOf(fs) == TakeStamp(Stamp(None, None), fs[0]);
    }
  }

  /** The body round trip, and exactly when it fails: a late time stamp or an empty bundle. */
  lemma TransferBodyBack(createdAt: u64, version: u32, shielded: bytes)
    requires |shielded| < 0x1_0000_0000_0000_0000
    ensures ParseTransferBody(EncodeTransferBody(createdAt, version, shielded)) ==
      if createdAt >= TIMESTAMP_LIMIT then Err(NotCanonical("created_at"))
      else if shielded == [] then Err(MissingField("shielded_transfer"))
      else Ok(TransferBody(createdAt, version, shielded, 0))
  {
    var fs := BodyFields(createdAt, version, shielded);
    TimestampBack(createdAt);
    FieldsBack(fs);
    BodySlotsBack(createdAt, version, shielded);
    VersionFits(fs);
  }

  lemma BodySlotsBack(createdAt: u64, version: u32, shielded: bytes)
    ensures SlotsOf(BodyFields(createdAt, version, shielded)) ==
      if createdAt >= TIMESTAMP_LIMIT then Err(NotCanonical("created_at"))
      else Ok(BodySlots(Some(createdAt), if version == 0 then None else Some(version), None, None,
                        if shielded == [] then None else Some(shielded), 0))
  {
    TimestampBack(createdAt);
    var first := [WireField(CREATED_AT, Bytes(EncodeFields(TimestampFields(createdAt))))];
    var second: seq<WireField> := if version == 0 then [] else [WireField(VERSION_NUMBER, Varint(version))];
    var third: seq<WireField> := if shielded == [] then [] else [WireField(SHIELDED_TRANSFER, Bytes(shielded))];
    assert first[..0] == [];
    SlotsSnoc(first, second);
    SlotsSnoc(first + second, third);
  }

  lemma SlotsSnoc(before: seq<WireField>, last: seq<WireField>)
    requires |last| <= 1
    ensures SlotsOf(before + last) ==
      if last == [] || SlotsOf(before).Err? then SlotsOf(before) else TakeField(SlotsOf(before).value, last[0])
  {
    if last == [] {
      assert before + last == before;
    } else {
      assert (before + last)[..|before|] == before;
    }
  }
}
