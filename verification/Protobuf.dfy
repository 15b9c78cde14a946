/**
 The protobuf encoding as the strict parsers need it: varints, fields, and messages whose fields
 have the tags 1, 2, 3, … in order, with default values left out.
 */
module Protobuf {
  import opened Arithmetic
  import opened Bytes
  import opened Notes
  import opened TreeState

  datatype Read<T> = Read(value: T, rest: bytes)

  // ---------------------------------------------------------------- varints

  function Pow128(n: nat): (p: nat)
    ensures p > 0
  {
    if n == 0 then 1 else 128 * Pow128(n - 1)
  }

  /** A base-128 varint of at most `n` bytes, least significant group first. */
  function RawVarint(s: bytes, n: nat): (r: Option<Read<nat>>)
    ensures r.Some? ==> |r.value.rest| < |s|
    decreases n, s
  {
    if n == 0 || s == [] then None
    else if s[0] < 128 then Some(Read(s[0] % 128, s[1..]))
    else
      var high := RawVarint(s[1..], n - 1);
      if high.None? then None else Some(Read(s[0] % 128 + 128 * high.value.value, high.value.rest))
  }

  /** What a 64-bit shift keeps. */
  function Low64(x: nat): u64 { x % 0x1_0000_0000_0000_0000 }

  /** `read_varint`: at most ten bytes, and what does not fit into 64 bits is shifted out. */
  function ReadVarint(s: bytes): (r: Option<Read<u64>>)
    ensures r.Some? ==> |r.value.rest| < |s|
  {
    var raw := RawVarint(s, 10);
    if raw.None? then None else Some(Read(Low64(raw.value.value), raw.value.rest))
  }

  /** The minimal varint. */
  function WriteVarint(x: nat): (s: bytes)
    ensures s != []
  {
    if x < 128 then [x] else [x % 128 + 128] + WriteVarint(x / 128)
  }

  lemma {:induction false} VarintBack(x: nat, tail: bytes, n: nat)
    requires n > 0 && x < Pow128(n)
    ensures RawVarint(WriteVarint(x) + tail, n) == Some(Read(x, tail))
    ensures |WriteVarint(x)| <= n
    decreases n
  {
    var s := WriteVarint(x) + tail;
    if x >= 128 {
      VarintBack(x / 128, tail, n - 1);
      assert s[1..] == WriteVarint(x / 128) + tail;
    } else {
      assert s[1..] == tail;
    }
  }

  lemma Pow128Ten()
    ensures Pow128(9) == 0x8000_0000_0000_0000 && Pow128(10) == 0x40_0000_0000_0000_0000
  {
    assert Pow128(3) == 0x20_0000;
    assert Pow128(6) == 0x400_0000_0000;
  }

  /** `read_varint` inverts the encoding of every 64-bit number. */
  lemma ReadWritten(x: u64, tail: bytes)
    ensures ReadVarint(WriteVarint(x) + tail) == Some(Read(x, tail))
    ensures |WriteVarint(x)| <= 10
  {
    Pow128Ten();
    VarintBack(x, tail, 10);
    DivUnique(x, 0x1_0000_0000_0000_0000, 0, x);
  }

  /** `x * 128^i` */
  function Raised(x: nat, i: nat): nat
    decreases i
  {
    if i == 0 then x else 128 * Raised(x, i - 1)
  }

  lemma {:induction false} RaisedSum(x: nat, y: nat, i: nat)
    ensures Raised(x + y, i) == Raised(x, i) + Raised(y, i)
  {
    if i > 0 { RaisedSum(x, y, i - 1); }
  }

  lemma {:induction false} RaisedMore(x: nat, i: nat)
    ensures Raised(128 * x, i) == Raised(x, i + 1)
  {
    if i > 0 { RaisedMore(x, i - 1); }
  }

  lemma {:induction false} RaisedBound(x: nat, i: nat)
    requires x <= 127
    ensures Raised(x, i) <= 127 * Pow128(i)
  {
    if i > 0 { RaisedBound(x, i - 1); }
  }

  /** The value of the groups read so far, joined with what the rest reads as. */
  function Joined(value: nat, i: nat, low: Option<Read<nat>>): Option<Read<nat>>
  {
    if low.None? then None else Some(Read(value + Raised(low.value.value, i), low.value.rest))
  }

  /** The value with one more group. Its bits are above all earlier ones, so `|` is `+`; `<<` cuts to 64 bits. */
  function NextValue(value: nat, byte: byte, i: nat): nat
  {
    value + Low64(Raised(byte % 128, i))
  }

  /** The loop of `read_varint`. */
  method ReadVarintLoop(s: bytes) returns (r: Option<Read<u64>>)
    ensures r == ReadVarint(s)
  {
    var value: nat, rest := 0, s;
    for i := 0 to 10
      invariant value < Pow128(i) && RawVarint(s, 10) == Joined(value, i, RawVarint(rest, 10 - i))
    {
      if rest == [] {
        return None;
      }
      NextGroup(value, i, rest);
      var byte := rest[0];
      value, rest := NextValue(value, byte, i), rest[1..];
      if byte < 128 {
        return Some(Read(value, rest));
      }
      if i == 9 {
        return None;
      }
    }
    return None;
  }

  /** What one turn of the loop does to the value read so far. */
  lemma NextGroup(value: nat, i: nat, rest: bytes)
    requires i < 10 && rest != [] && value < Pow128(i)
    ensures var next, joined := NextValue(value, rest[0], i), Joined(value, i, RawVarint(rest, 10 - i));
      && (rest[0] < 128 ==> joined.Some? && joined.value.rest == rest[1..] && next == Low64(joined.value.value))
      && (rest[0] >= 128 && i < 9 ==> next < Pow128(i + 1) && joined == Joined(next, i + 1, RawVarint(rest[1..], 9 - i)))
      && (rest[0] >= 128 && i == 9 ==> joined == None)
  {
    GroupStep(value, i, rest);
    RaisedBound(rest[0] % 128, i);
    GroupFits(value, rest[0] % 128, Raised(rest[0] % 128, i), i);
  }

  /** One group further: its seven bits go above the ones read so far. */
  lemma GroupStep(value: nat, i: nat, rest: bytes)
    requires i < 10 && rest != []
    ensures var more := value + Raised(rest[0] % 128, i);
      Joined(value, i, RawVarint(rest, 10 - i)) ==
        if rest[0] < 128 then Some(Read(more, rest[1..])) else Joined(more, i + 1, RawVarint(rest[1..], 9 - i))
  {
    if rest[0] >= 128 { JoinedStep(value, i, rest[0] % 128, RawVarint(rest[1..], 9 - i), RawVarint(rest, 10 - i)); }
  }

  lemma JoinedStep(value: nat, i: nat, group: nat, high: Option<Read<nat>>, all: Option<Read<nat>>)
    requires all == if high.None? then None else Some(Read(group + 128 * high.value.value, high.value.rest))
    ensures Joined(value, i, all) == Joined(value + Raised(group, i), i + 1, high)
  {
    if high.Some? {
      RaisedSum(group, 128 * high.value.value, i);
      RaisedMore(high.value.value, i);
    }
  }

  /** Only the tenth group can exceed 64 bits, and it is cut the same before and after it is added. */
  lemma GroupFits(value: nat, group: nat, x: nat, i: nat)
    requires i < 10 && value < Pow128(i) && x == Raised(group, i) <= 127 * Pow128(i)
    ensures value + Low64(x) == Low64(value + x)
    ensures i < 9 ==> value + x < Pow128(i + 1) && Low64(x) == x
  {
    if i < 9 { LowGroup(value, x, i); } else { HighGroup(value, group, x, i); }
  }

  lemma HighGroup(value: nat, group: nat, x: nat, i: nat)
    requires i == 9 && value < Pow128(i) && x == Raised(group, i)
    ensures value + Low64(x) == Low64(value + x)
  {
    Pow128Ten();
    RaisedNine(group);
    TopGroup(value, group, x);
  }

  lemma LowGroup(value: nat, x: nat, i: nat)
    requires i < 9 && value < Pow128(i) && x <= 127 * Pow128(i)
    ensures value + x < Pow128(i + 1) <= 0x8000_0000_0000_0000
    ensures Low64(x) == x && value + Low64(x) == Low64(value + x)
  {
    Pow128Ten();
    Pow128Monotone(i + 1, 9);
    SmallFits(value, x);
  }

  lemma SmallFits(value: nat, x: nat)
    requires value + x < 0x1_0000_0000_0000_0000
    ensures Low64(x) == x && Low64(value + x) == value + x
  {}

  lemma RaisedNine(x: nat)
    ensures Raised(x, 9) == x * 0x8000_0000_0000_0000
  {
    assert Raised(x, 3) == x * 0x20_0000;
    assert Raised(x, 6) == x * 0x400_0000_0000;
  }

  lemma TopGroup(value: nat, group: nat, x: nat)
    requires value < 0x8000_0000_0000_0000 && x == group * 0x8000_0000_0000_0000
    ensures value + Low64(x) == Low64(value + x)
  {
    var half, odd := group / 2, group % 2;
    DivUnique(x, 0x1_0000_0000_0000_0000, half, odd * 0x8000_0000_0000_0000);
    DivUnique(value + x, 0x1_0000_0000_0000_0000, half, value + odd * 0x8000_0000_0000_0000);
  }

  lemma {:induction false} Pow128Monotone(m: nat, n: nat)
    requires m <= n
    ensures Pow128(m) <= Pow128(n)
    decreases n
  {
    if m < n { Pow128Monotone(m, n - 1); }
  }

  // ---------------------------------------------------------------- fields

  datatype FieldValue = Varint(v: u64) | Bytes(b: bytes)

  datatype WireField = WireField(tag: u32, value: FieldValue)

  /** One field: a varint or a length-delimited one; everything else is refused. */
  function ReadField(s: bytes): (r: Option<Read<WireField>>)
    ensures r.Some? ==> |r.value.rest| < |s|
  {
    var key := ReadVarint(s);
    if key.None? || key.value.value / 8 >= 0x1_0000_0000 then None
    else
      var tag: u32, rest := key.value.value / 8, key.value.rest;
      if key.value.value % 8 == 0 then
        var v := ReadVarint(rest);
        if v.None? then None else Some(Read(WireField(tag, Varint(v.value.value)), v.value.rest))
      else if key.value.value % 8 == 2 then
        var len := ReadVarint(rest);
        if len.None? || len.value.value > |len.value.rest| then None
        else Some(Read(WireField(tag, Bytes(len.value.rest[..len.value.value])), len.value.rest[len.value.value..]))
      else None
  }

  /** `fields`: the top-level fields of a message, in order. */
  function Fields(s: bytes): Option<seq<WireField>>
    decreases |s|
  {
    if s == [] then Some([])
    else
      var first := ReadField(s);
      if first.None? then None
      else
        var others := Fields(first.value.rest);
        if others.None? then None else Some([first.value.value] + others.value)
  }

  method FieldsLoop(s: bytes) returns (r: Option<seq<WireField>>)
    ensures r == Fields(s)
  {
    var rest, out: seq<WireField> := s, [];
    assert Fields(s).Some? ==> out + Fields(s).value == Fields(s).value;
    while rest != []
      invariant Fields(s) == if Fields(rest).None? then None else Some(out + Fields(rest).value)
      decreases |rest|
    {
      var first := ReadField(rest);
      if first.None? {
        return None;
      }
      ghost var others := Fields(first.value.rest);
      assert others.Some? ==> out + ([first.value.value] + others.value) == (out + [first.value.value]) + others.value;
      out := out + [first.value.value];
      rest := first.value.rest;
    }
    assert Fields(rest) == Some([]) && out + [] == out;
    return Some(out);
  }

  function FieldBytes(f: WireField): (s: bytes)
    ensures s != []
  {
    match f.value
    case Varint(v) => WriteVarint(8 * f.tag) + WriteVarint(v)
    case Bytes(b) => WriteVarint(8 * f.tag + 2) + (WriteVarint(|b|) + b)
  }

  function EncodeFields(fs: seq<WireField>): bytes
  {
    if fs == [] then [] else FieldBytes(fs[0]) + EncodeFields(fs[1..])
  }

  predicate FieldSized(f: WireField) { f.value.Bytes? ==> |f.value.b| < 0x1_0000_0000_0000_0000 }

  predicate Sized(fs: seq<WireField>) { forall f | f in fs :: FieldSized(f) }

  lemma FieldBack(f: WireField, tail: bytes)
    requires FieldSized(f)
    ensures ReadField(FieldBytes(f) + tail) == Some(Read(f, tail))
    ensures |FieldBytes(f)| <= 20 + (if f.value.Bytes? then |f.value.b| else 0)
  {
    match f.value
    case Varint(v) => VarintFieldBack(f.tag, v, tail);
    case Bytes(b) => BytesFieldBack(f.tag, b, tail);
  }

  lemma KeyParts(tag: u32, wire: nat)
    requires wire < 8
    ensures (8 * tag + wire) / 8 == tag && (8 * tag + wire) % 8 == wire
  {
    DivUnique(8 * tag + wire, 8, tag, wire);
  }

  lemma VarintFieldBack(tag: u32, v: u64, tail: bytes)
    ensures ReadField((WriteVarint(8 * tag) + WriteVarint(v)) + tail) == Some(Read(WireField(tag, Varint(v)), tail))
    ensures |WriteVarint(8 * tag) + WriteVarint(v)| <= 20
  {
    var key: u64 := 8 * tag;
    KeyParts(tag, 0);
    ReadWritten(key, WriteVarint(v) + tail);
    ReadWritten(v, tail);
    AppendAssociates(WriteVarint(key), WriteVarint(v), tail);
  }

  lemma BytesFieldBack(tag: u32, b: bytes, tail: bytes)
    requires |b| < 0x1_0000_0000_0000_0000
    ensures ReadField((WriteVarint(8 * tag + 2) + (WriteVarint(|b|) + b)) + tail) == Some(Read(WireField(tag, Bytes(b)), tail))
    ensures |WriteVarint(8 * tag + 2) + (WriteVarint(|b|) + b)| <= 20 + |b|
  {
    var key: u64 := 8 * tag + 2;
    var len: u64 := |b|;
    KeyParts(tag, 2);
    ReadWritten(key, WriteVarint(len) + (b + tail));
    ReadWritten(len, b + tail);
    AppendAssociates(WriteVarint(key), WriteVarint(len) + b, tail);
    AppendAssociates(WriteVarint(len), b, tail);
    assert (b + tail)[..len] == b && (b + tail)[len..] == tail;
  }

  /** Reading the fields of an encoding gives them back. */
  lemma {:induction false} FieldsBack(fs: seq<WireField>)
    requires Sized(fs)
    ensures Fields(EncodeFields(fs)) == Some(fs)
  {
    if fs != [] {
      FieldBack(fs[0], EncodeFields(fs[1..]));
      FieldsBack(fs[1..]);
      assert fs == [fs[0]] + fs[1..];
    }
  }

  /** A short encoding has short fields. */
  lemma {:induction false} ShortIsSized(fs: seq<WireField>)
    requires |EncodeFields(fs)| < 0x1_0000_0000_0000_0000
    ensures Sized(fs)
  {
    if fs != [] { ShortIsSized(fs[1..]); }
  }

  /** An upper bound for the encoded length. */
  function LengthBound(fs: seq<WireField>): nat
  {
    if fs == [] then 0
    else 20 + (if fs[0].value.Bytes? then |fs[0].value.b| else 0) + LengthBound(fs[1..])
  }

  lemma {:induction false} EncodedLength(fs: seq<WireField>)
    requires Sized(fs)
    ensures |EncodeFields(fs)| <= LengthBound(fs)
  {
    if fs != [] {
      FieldBack(fs[0], []);
      EncodedLength(fs[1..]);
    }
  }

  lemma {:induction false} LengthBoundAppend(a: seq<WireField>, b: seq<WireField>)
    ensures LengthBound(a + b) == LengthBound(a) + LengthBound(b)
  {
    if a == [] {
      assert a + b == b;
    } else {
      assert (a + b)[1..] == a[1..] + b;
      LengthBoundAppend(a[1..], b);
    }
  }

  // ---------------------------------------------------------------- messages

  /** The content of one tag, as the message types of this program use them. */
  datatype Slot =
    | BytesSlot(b: bytes) | Uint32Slot(n: u32) | Uint64Slot(v: u64) | RepeatedSlot(items: seq<bytes>)
    | OptionalSlot(message: Option<bytes>)

  datatype Kind = KBytes | KUint32 | KUint64 | KRepeated | KOptional

  predicate Fits(kind: Kind, slot: Slot)
  {
    match kind
    case KBytes => slot.BytesSlot?
    case KUint32 => slot.Uint32Slot?
    case KUint64 => slot.Uint64Slot?
    case KRepeated => slot.RepeatedSlot?
    case KOptional => slot.OptionalSlot?
  }

  predicate AllFit(kinds: seq<Kind>, slots: seq<Slot>)
  {
    |kinds| == |slots| && forall i | 0 <= i < |kinds| :: Fits(kinds[i], slots[i])
  }

  function BytesValues(items: seq<bytes>): (s: seq<FieldValue>)
    ensures |s| == |items|
  {
    seq(|items|, i requires 0 <= i < |items| => Bytes(items[i]))
  }

  /** The values written for a slot: nothing for a default value. */
  function SlotValues(slot: Slot): seq<FieldValue>
  {
    match slot
    case BytesSlot(b) => if b == [] then [] else [Bytes(b)]
    case Uint32Slot(n) => if n == 0 then [] else [Varint(n)]
    case Uint64Slot(v) => if v == 0 then [] else [Varint(v)]
    case RepeatedSlot(items) => BytesValues(items)
    case OptionalSlot(m) => if m.None? then [] else [Bytes(m.value)]
  }

  function Tagged(tag: u32, values: seq<FieldValue>): (s: seq<WireField>)
    ensures |s| == |values|
  {
    seq(|values|, i requires 0 <= i < |values| => WireField(tag, values[i]))
  }

  /** The fields of a message, tags in order. */
  function MessageFields(tag: u32, slots: seq<Slot>): seq<WireField>
    requires tag + |slots| < 0x1_0000_0000
    decreases |slots|
  {
    if slots == [] then [] else Tagged(tag, SlotValues(slots[0])) + MessageFields(tag + 1, slots[1..])
  }

  function EncodeMessage(slots: seq<Slot>): bytes
    requires |slots| < 0xffff_ffff
  {
    EncodeFields(MessageFields(1, slots))
  }

  /** All values with a tag, in order. */
  function ValuesOf(fs: seq<WireField>, tag: u32): seq<FieldValue>
  {
    if fs == [] then []
    else (if fs[0].tag == tag then [fs[0].value] else []) + ValuesOf(fs[1..], tag)
  }

  predicate AllBytes(values: seq<FieldValue>) { forall v | v in values :: v.Bytes? }
  predicate AllVarints(values: seq<FieldValue>) { forall v | v in values :: v.Varint? }

  function Concat(values: seq<FieldValue>): bytes
    requires AllBytes(values)
  {
    if values == [] then [] else values[0].b + Concat(values[1..])
  }

  /**
   What a protobuf decoder makes of the values of one tag: the last one of a singular field counts,
   numbers are cut to their width, and pieces of a sub-message are merged.
   */
  function DecodeSlot(kind: Kind, values: seq<FieldValue>): (r: Option<Slot>)
    ensures r.Some? ==> Fits(kind, r.value)
  {
    match kind
    case KBytes =>
      if !AllBytes(values) then None
      else Some(BytesSlot(if values == [] then [] else values[|values| - 1].b))
    case KUint32 =>
      if !AllVarints(values) then None
      else Some(Uint32Slot(if values == [] then 0 else values[|values| - 1].v % 0x1_0000_0000))
    case KUint64 =>
      if !AllVarints(values) then None
      else Some(Uint64Slot(if values == [] then 0 else values[|values| - 1].v))
    case KRepeated =>
      if !AllBytes(values) then None
      else Some(RepeatedSlot(seq(|values|, i requires 0 <= i < |values| => values[i].b)))
    case KOptional =>
      if !AllBytes(values) then None
      else Some(OptionalSlot(if values == [] then None else Some(Concat(values))))
  }

  /** A message, tag by tag; tags the message does not have are skipped. */
  function DecodeSlots(kinds: seq<Kind>, tag: u32, fs: seq<WireField>): (r: Option<seq<Slot>>)
    requires tag + |kinds| < 0x1_0000_0000
    ensures r.Some? ==> AllFit(kinds, r.value)
    decreases |kinds|
  {
    if kinds == [] then Some([])
    else
      var slot, others := DecodeSlot(kinds[0], ValuesOf(fs, tag)), DecodeSlots(kinds[1..], tag + 1, fs);
      if slot.None? || others.None? then None else Some([slot.value] + others.value)
  }

  function DecodeMessage(kinds: seq<Kind>, s: bytes): (r: Option<seq<Slot>>)
    requires |kinds| < 0xffff_ffff
    ensures r.Some? ==> AllFit(kinds, r.value)
  {
    var fs := Fields(s);
    if fs.None? then None else DecodeSlots(kinds, 1, fs.value)
  }

  lemma SlotBack(kind: Kind, slot: Slot)
    requires Fits(kind, slot)
    ensures DecodeSlot(kind, SlotValues(slot)) == Some(slot)
  {
    match slot
    case RepeatedSlot(items) =>
      var values := BytesValues(items);
      assert seq(|values|, i requires 0 <= i < |values| => values[i].b) == items;
    case OptionalSlot(m) =>
      if m.Some? {
        assert SlotValues(slot)[1..] == [];
        assert Concat([]) == [] && m.value + [] == m.value;
      }
    case _ =>
  }

  lemma {:induction false} ValuesAppend(a: seq<WireField>, b: seq<WireField>, tag: u32)
    ensures ValuesOf(a + b, tag) == ValuesOf(a, tag) + ValuesOf(b, tag)
  {
    if a == [] {
      assert a + b == b;
    } else {
      assert (a + b)[1..] == a[1..] + b;
      ValuesAppend(a[1..], b, tag);
      AppendAssociates(if a[0].tag == tag then [a[0].value] else [], ValuesOf(a[1..], tag), ValuesOf(b, tag));
    }
  }

  lemma {:induction false} ValuesTagged(t: u32, values: seq<FieldValue>, tag: u32)
    ensures ValuesOf(Tagged(t, values), tag) == if t == tag then values else []
  {
    if values != [] {
      assert Tagged(t, values)[1..] == Tagged(t, values[1..]);
      ValuesTagged(t, values[1..], tag);
      assert values == [values[0]] + values[1..];
    }
  }

  lemma {:induction false} ValuesAbove(t: u32, slots: seq<Slot>, tag: u32)
    requires tag < t && t + |slots| < 0x1_0000_0000
    ensures ValuesOf(MessageFields(t, slots), tag) == []
    decreases |slots|
  {
    if slots != [] {
      ValuesAppend(Tagged(t, SlotValues(slots[0])), MessageFields(t + 1, slots[1..]), tag);
      ValuesTagged(t, SlotValues(slots[0]), tag);
      ValuesAbove(t + 1, slots[1..], tag);
    }
  }

  predicate Below(front: seq<WireField>, tag: nat) { forall f | f in front :: f.tag < tag }

  lemma BelowGrows(front: seq<WireField>, tag: u32, values: seq<FieldValue>)
    requires Below(front, tag)
    ensures Below(front + Tagged(tag, values), tag + 1)
  {}

  /** Fields in front that have lower tags do not matter. */
  lemma {:induction false} SlotsBack(kinds: seq<Kind>, slots: seq<Slot>, tag: u32, front: seq<WireField>)
    requires AllFit(kinds, slots) && tag + |kinds| < 0x1_0000_0000 && Below(front, tag)
    ensures DecodeSlots(kinds, tag, front + MessageFields(tag, slots)) == Some(slots)
    decreases |kinds|
  {
    if kinds != [] {
      var first, others := Tagged(tag, SlotValues(slots[0])), MessageFields(tag + 1, slots[1..]);
      FirstValues(slots, tag, front);
      SlotBack(kinds[0], slots[0]);
      AppendAssociates(front, first, others);
      BelowGrows(front, tag, SlotValues(slots[0]));
      SlotsBack(kinds[1..], slots[1..], tag + 1, front + first);
      DecodeFirst(kinds, slots, tag, front + MessageFields(tag, slots));
    }
  }

  lemma DecodeFirst(kinds: seq<Kind>, slots: seq<Slot>, tag: u32, fs: seq<WireField>)
    requires kinds != [] && slots != [] && tag + |kinds| < 0x1_0000_0000
    requires DecodeSlot(kinds[0], ValuesOf(fs, tag)) == Some(slots[0]) && DecodeSlots(kinds[1..], tag + 1, fs) == Some(slots[1..])
    ensures DecodeSlots(kinds, tag, fs) == Some(slots)
  {
    assert slots == [slots[0]] + slots[1..];
  }

  lemma FirstValues(slots: seq<Slot>, tag: u32, front: seq<WireField>)
    requires slots != [] && tag + |slots| < 0x1_0000_0000 && Below(front, tag)
    ensures ValuesOf(front + MessageFields(tag, slots), tag) == SlotValues(slots[0])
  {
    var values, others := SlotValues(slots[0]), MessageFields(tag + 1, slots[1..]);
    LowerTags(front, tag);
    ValuesAppend(front, MessageFields(tag, slots), tag);
    ValuesAppend(Tagged(tag, values), others, tag);
    ValuesTagged(tag, values, tag);
    ValuesAbove(tag + 1, slots[1..], tag);
  }

  lemma {:induction false} LowerTags(front: seq<WireField>, tag: u32)
    requires Below(front, tag)
    ensures ValuesOf(front, tag) == []
  {
    if front != [] { LowerTags(front[1..], tag); }
  }

  /** Decoding an encoded message gives it back, defaults included. */
  lemma MessageBack(kinds: seq<Kind>, slots: seq<Slot>)
    requires AllFit(kinds, slots) && |kinds| < 0xffff_ffff && Sized(MessageFields(1, slots))
    ensures DecodeMessage(kinds, EncodeMessage(slots)) == Some(slots)
  {
    FieldsBack(MessageFields(1, slots));
    SlotsBack(kinds, slots, 1, []);
    assert [] + MessageFields(1, slots) == MessageFields(1, slots);
  }

  // ---------------------------------------------------------------- sizes

  predicate SlotSized(slot: Slot) { forall v | v in SlotValues(slot) :: v.Bytes? ==> |v.b| < 0x1_0000_0000_0000_0000 }

  lemma {:induction false} MessageSized(tag: u32, slots: seq<Slot>)
    requires tag + |slots| < 0x1_0000_0000 && forall i | 0 <= i < |slots| :: SlotSized(slots[i])
    ensures Sized(MessageFields(tag, slots))
    decreases |slots|
  {
    if slots != [] {
      MessageSized(tag + 1, slots[1..]);
      assert SlotSized(slots[0]);
    }
  }

  function ItemsBound(items: seq<bytes>): nat
  {
    if items == [] then 0 else 20 + |items[0]| + ItemsBound(items[1..])
  }

  /** Upper bounds for the encoded sizes of a slot and a message. */
  function SlotBound(slot: Slot): nat
  {
    match slot
    case BytesSlot(b) => 20 + |b|
    case Uint32Slot(_) => 20
    case Uint64Slot(_) => 20
    case RepeatedSlot(items) => ItemsBound(items)
    case OptionalSlot(m) => if m.None? then 0 else 20 + |m.value|
  }

  function SlotsBound(slots: seq<Slot>): nat
  {
    if slots == [] then 0 else SlotBound(slots[0]) + SlotsBound(slots[1..])
  }

  lemma {:induction false} ItemsLength(tag: u32, items: seq<bytes>)
    ensures LengthBound(Tagged(tag, BytesValues(items))) == ItemsBound(items)
  {
    if items != [] {
      assert Tagged(tag, BytesValues(items))[1..] == Tagged(tag, BytesValues(items[1..]));
      ItemsLength(tag, items[1..]);
    }
  }

  lemma SlotLength(tag: u32, slot: Slot)
    ensures LengthBound(Tagged(tag, SlotValues(slot))) <= SlotBound(slot)
  {
    if slot.RepeatedSlot? {
      ItemsLength(tag, slot.items);
    } else {
      var fs := Tagged(tag, SlotValues(slot));
      assert fs != [] ==> fs[1..] == [];
    }
  }

  lemma {:induction false} MessageLength(tag: u32, slots: seq<Slot>)
    requires tag + |slots| < 0x1_0000_0000
    ensures LengthBound(MessageFields(tag, slots)) <= SlotsBound(slots)
    decreases |slots|
  {
    if slots != [] {
      SlotLength(tag, slots[0]);
      LengthBoundAppend(Tagged(tag, SlotValues(slots[0])), MessageFields(tag + 1, slots[1..]));
      MessageLength(tag + 1, slots[1..]);
    }
  }

  /** A message of bounded size: it is sized, decodes to itself, and its length is bounded. */
  lemma SmallMessage(kinds: seq<Kind>, slots: seq<Slot>)
    requires AllFit(kinds, slots) && |kinds| < 0xffff_ffff && SlotsBound(slots) < 0x1_0000_0000_0000_0000
    ensures DecodeMessage(kinds, EncodeMessage(slots)) == Some(slots)
    ensures |EncodeMessage(slots)| <= SlotsBound(slots)
  {
    forall i | 0 <= i < |slots| ensures SlotSized(slots[i]) {
      SmallSlot(slots, i);
    }
    MessageSized(1, slots);
    MessageBack(kinds, slots);
    EncodedLength(MessageFields(1, slots));
    MessageLength(1, slots);
  }

  lemma {:induction false} SmallSlot(slots: seq<Slot>, i: nat)
    requires i < |slots| && SlotsBound(slots) < 0x1_0000_0000_0000_0000
    ensures SlotSized(slots[i])
    decreases i
  {
    if i > 0 {
      SmallSlot(slots[1..], i - 1);
    } else if slots[0].RepeatedSlot? {
      SmallItems(slots[0].items);
    }
  }

  lemma {:induction false} SmallItems(items: seq<bytes>)
    ensures forall b | b in items :: |b| <= ItemsBound(items)
  {
    if items != [] { SmallItems(items[1..]); }
  }
}
