/**
 Message descriptors and message structs, without callbacks, extensions, pointers or fixed-count arrays; what a struct
 encodes to, and what of it an encoding keeps (pb.h, pb_common.c, pb_encode.c).
 */
module NanopbMessages {
  import opened Coding
  import opened NanopbWire
  import opened Reads

  // ---------------------------------------------------------------- descriptors

  /** PB_LTYPE, with data_size where it matters. */
  datatype LType =
    | LBool | LVarint(width: Width) | LUVarint(width: Width) | LSVarint(width: Width) | LFixed32 | LFixed64
    | LBytes(dataSize: nat) | LString(dataSize: nat) | LFixedLengthBytes(dataSize: nat)
    | LSubmessage(fields: seq<Field>)

  /**
   PB_HTYPE: an optional field has a has_ member or, in proto3, none; the members of a union share a which_ member.
   */
  datatype HType = Required | Optional(hasMember: bool) | Repeated(arraySize: nat) | OneOf(union: nat)

  datatype Field = Field(tag: nat, htype: HType, ltype: LType, default: Option<Datum>)

  /** Tags are field numbers, and no two fields of a message share one, here and in submessages. */
  predicate IsDescriptor(fields: seq<Field>)
    decreases fields
  {
    && (forall i | 0 <= i < |fields| :: IsFieldDescriptor(fields[i]))
    && (forall i, j | 0 <= i < j < |fields| :: fields[i].tag != fields[j].tag)
  }

  predicate IsFieldDescriptor(f: Field)
    decreases f, 0
  {
    1 <= f.tag <= MAX_TAG && IsFieldType(f.ltype)
  }

  predicate IsFieldType(l: LType)
    decreases l, 0
  {
    match l
    case LSubmessage(fields) => IsDescriptor(fields)
    case _ => true
  }

  /** The header of a bytes member: offsetof(pb_bytes_array_t, bytes). */
  const BYTES_HEADER := 4

  // ---------------------------------------------------------------- structs

  /** A member; a string is what comes before its terminator, or the whole member. */
  datatype Datum = VBool(b: bool) | VNumber(n: int) | VBytes(data: Bytes) | VString(chars: Bytes) | VMessage(m: Message)

  datatype Slot = Single(v: Datum) | WithHas(has: bool, v: Datum) | Items(items: seq<Datum>) | InUnion

  /** which_ and what is in the union. */
  datatype Choice = Choice(tag: nat, v: Datum)

  datatype Message = Message(slots: seq<Slot>, unions: map<nat, Choice>)

  predicate IsPackable(l: LType) {
    l.LBool? || l.LVarint? || l.LUVarint? || l.LSVarint? || l.LFixed32? || l.LFixed64?
  }

  function WireTypeOf(l: LType): (w: WireType)
    ensures w != WireOther
  {
    match l
    case LFixed32 => Wire32Bit
    case LFixed64 => Wire64Bit
    case _ => if IsPackable(l) then WireVarint else WireString
  }

  // ---------------------------------------------------------------- defaults

  function Zeros(n: nat): (zeros: Bytes)
    ensures |zeros| == n
  {
    seq(n, i => 0)
  }

  function ZeroOf(l: LType): Datum {
    match l
    case LBool => VBool(false)
    case LBytes(_) => VBytes([])
    case LString(_) => VString([])
    case LSubmessage(_) => VMessage(Message([], map[]))
    case LFixedLengthBytes(size) => VBytes(Zeros(size))
    case _ => VNumber(0)
  }

  /** pb_field_set_to_default. */
  function DefaultValue(f: Field): Datum
    decreases f, 0
  {
    match f.ltype
    case LSubmessage(fields) => VMessage(DefaultMessage(fields))
    case _ => if f.default.Some? then f.default.value else ZeroOf(f.ltype)
  }

  function DefaultSlot(f: Field): Slot
    decreases f, 1
  {
    match f.htype
    case Required => Single(DefaultValue(f))
    case Optional(hasMember) => if hasMember then WithHas(false, DefaultValue(f)) else Single(DefaultValue(f))
    case Repeated(_) => Items([])
    case OneOf(_) => InUnion
  }

  function DefaultSlots(fields: seq<Field>): (slots: seq<Slot>)
    ensures |slots| == |fields|
    decreases fields, 0
  {
    if fields == [] then []
    else DefaultSlots(fields[..|fields| - 1]) + [DefaultSlot(fields[|fields| - 1])]
  }

  /** pb_message_set_to_defaults. */
  function DefaultMessage(fields: seq<Field>): (m: Message)
    ensures |m.slots| == |fields|
    decreases fields, 1
  {
    Message(DefaultSlots(fields), map[])
  }

  lemma {:induction false} DefaultSlotAt(fields: seq<Field>, i: nat)
    requires i < |fields|
    ensures DefaultSlots(fields)[i] == DefaultSlot(fields[i])
  {
    if i < |fields| - 1 {
      DefaultSlotAt(fields[..|fields| - 1], i);
    }
  }

  // ---------------------------------------------------------------- what is left out of an encoding

  /** pb_check_proto3_default_value, on what a member without a has_ member holds. */
  predicate IsZero(l: LType, v: Datum)
    decreases l, 0
  {
    match l
    case LBytes(_) => v.VBytes? && v.data == []
    case LString(_) => v.VString? && v.chars == []
    case LFixedLengthBytes(size) => size == 0
    case LSubmessage(fields) => v.VMessage? && |v.m.slots| == |fields| && AllZero(fields, v.m)
    case LBool => v.VBool? && !v.b
    case _ => v.VNumber? && v.n == 0
  }

  predicate IsZeroField(f: Field, m: Message, i: nat)
    requires i < |m.slots|
    decreases f, 0
  {
    match f.htype
    case Required => false
    case Optional(hasMember) =>
      if hasMember then m.slots[i].WithHas? && !m.slots[i].has
      else m.slots[i].Single? && IsZero(f.ltype, m.slots[i].v)
    case Repeated(_) => m.slots[i].Items? && m.slots[i].items == []
    case OneOf(u) => u !in m.unions
  }

  predicate AllZero(fields: seq<Field>, m: Message)
    requires |fields| <= |m.slots|
    decreases fields
  {
    fields == [] || (IsZeroField(fields[|fields| - 1], m, |fields| - 1) && AllZero(fields[..|fields| - 1], m))
  }

  /** What a field contributes to an encoding. */
  function Present(f: Field, m: Message, i: nat): seq<Datum>
    requires i < |m.slots|
  {
    match m.slots[i]
    case Single(v) => if f.htype.Optional? && IsZero(f.ltype, v) then [] else [v]
    case WithHas(has, v) => if has then [v] else []
    case Items(items) => items
    case InUnion =>
      if f.htype.OneOf? && f.htype.union in m.unions && m.unions[f.htype.union].tag == f.tag
      then [m.unions[f.htype.union].v] else []
  }

  // ---------------------------------------------------------------- the encoding

  function NumberBytes(l: LType, n: int): Bytes {
    match l
    case LVarint(w) => if FitsSigned(w, n) then Varint(Unsigned64(n)) else []
    case LUVarint(w) => if FitsUnsigned(w, n) then Varint(n) else []
    case LSVarint(w) => if FitsSigned(w, n) then Varint(ZigZag(n)) else []
    case LFixed32 => if FitsUnsigned(FourBytes, n) then EncodeFixed32(n) else []
    case LFixed64 => if FitsUnsigned(EightBytes, n) then EncodeFixed64(n) else []
    case _ => []
  }

  function ValueBytes(l: LType, v: Datum): Bytes
    decreases l, 0
  {
    match v
    case VBool(b) => Varint(if b then 1 else 0)
    case VNumber(n) => NumberBytes(l, n)
    case VBytes(data) => Prefixed(data)
    case VString(chars) => Prefixed(chars)
    case VMessage(m) => if l.LSubmessage? && |l.fields| <= |m.slots| then Prefixed(FieldsBytes(l.fields, m)) else []
  }

  function TaggedBytes(f: Field, v: Datum): Bytes
    decreases f, 0
  {
    TagBytes(WireTypeOf(f.ltype), f.tag) + ValueBytes(f.ltype, v)
  }

  function PackedBytes(l: LType, items: seq<Datum>): Bytes
    decreases l, 1, |items|
  {
    if items == [] then [] else PackedBytes(l, items[..|items| - 1]) + ValueBytes(l, items[|items| - 1])
  }

  function UnpackedBytes(f: Field, items: seq<Datum>): Bytes
    decreases f, 1, |items|
  {
    if items == [] then [] else UnpackedBytes(f, items[..|items| - 1]) + TaggedBytes(f, items[|items| - 1])
  }

  /** Arrays of numbers are packed: one tag and one length for all of them. */
  function FieldBytes(f: Field, m: Message, i: nat): Bytes
    requires i < |m.slots|
    decreases f, 2
  {
    var vs := Present(f, m, i);
    if f.htype.Repeated? && IsPackable(f.ltype) then
      if vs == [] then [] else TagBytes(WireString, f.tag) + Prefixed(PackedBytes(f.ltype, vs))
    else UnpackedBytes(f, vs)
  }

  /** The fields in the order of the descriptor. */
  function FieldsBytes(fields: seq<Field>, m: Message): Bytes
    requires |fields| <= |m.slots|
    decreases fields
  {
    if fields == [] then []
    else FieldsBytes(fields[..|fields| - 1], m) + FieldBytes(fields[|fields| - 1], m, |fields| - 1)
  }

  // ---------------------------------------------------------------- structs that fit their descriptor

  /** The member has the type of the descriptor, so that its number is in range. */
  predicate HasType(l: LType, v: Datum)
    decreases l, 0
  {
    match l
    case LBool => v.VBool?
    case LVarint(w) => v.VNumber? && FitsSigned(w, v.n)
    case LUVarint(w) => v.VNumber? && FitsUnsigned(w, v.n)
    case LSVarint(w) => v.VNumber? && FitsSigned(w, v.n)
    case LFixed32 => v.VNumber? && FitsUnsigned(FourBytes, v.n)
    case LFixed64 => v.VNumber? && FitsUnsigned(EightBytes, v.n)
    case LBytes(_) => v.VBytes?
    case LString(size) => v.VString? && |v.chars| <= size && forall i | 0 <= i < |v.chars| :: v.chars[i] != 0
    case LSubmessage(fields) => v.VMessage? && IsMessage(fields, v.m)
    case LFixedLengthBytes(size) => v.VBytes? && |v.data| == size
  }

  predicate AllHaveType(l: LType, items: seq<Datum>)
    decreases l, 1
  {
    forall k {:trigger HasType(l, items[k])} | 0 <= k < |items| :: HasType(l, items[k])
  }

  predicate IsMember(f: Field, m: Message, i: nat)
    requires i < |m.slots|
    decreases f, 0
  {
    match f.htype
    case Required => m.slots[i].Single? && HasType(f.ltype, m.slots[i].v)
    case Optional(hasMember) =>
      if hasMember then m.slots[i].WithHas? && HasType(f.ltype, m.slots[i].v)
      else m.slots[i].Single? && HasType(f.ltype, m.slots[i].v)
    case Repeated(_) => m.slots[i].Items? && AllHaveType(f.ltype, m.slots[i].items)
    case OneOf(u) =>
      && m.slots[i].InUnion?
      && (u in m.unions && m.unions[u].tag == f.tag ==> HasType(f.ltype, m.unions[u].v))
  }

  /** A struct of this type: the which_ member of a union is 0 or the tag of a member. */
  predicate IsMessage(fields: seq<Field>, m: Message)
    decreases fields, 1
  {
    && |m.slots| == |fields| && IsStruct(fields, m)
    && forall u | u in m.unions :: exists j ::
      0 <= j < |fields| && fields[j].htype == OneOf(u) && fields[j].tag == m.unions[u].tag
  }

  /** The struct is laid out as its descriptor says. */
  predicate IsStruct(fields: seq<Field>, m: Message)
    requires |fields| <= |m.slots|
    decreases fields, 0
  {
    fields == [] || (IsMember(fields[|fields| - 1], m, |fields| - 1) && IsStruct(fields[..|fields| - 1], m))
  }

  // ---------------------------------------------------------------- what the encoder refuses

  /** Bytes are no longer than their member, here and in submessages. */
  predicate ValueFits(l: LType, v: Datum)
    decreases l, 0
  {
    match v
    case VBytes(data) => l.LBytes? ==> |data| + BYTES_HEADER <= l.dataSize
    case VMessage(m) => l.LSubmessage? && |l.fields| <= |m.slots| ==> AllFit(l.fields, m)
    case _ => true
  }

  predicate ItemsFit(l: LType, items: seq<Datum>)
    decreases l, 1
  {
    forall k {:trigger ValueFits(l, items[k])} | 0 <= k < |items| :: ValueFits(l, items[k])
  }

  /** What the field contributes fits, and no more items than the array has. */
  predicate FieldFits(f: Field, m: Message, i: nat)
    requires i < |m.slots|
    decreases f, 1
  {
    (f.htype.Repeated? ==> |Present(f, m, i)| <= f.htype.arraySize) && ItemsFit(f.ltype, Present(f, m, i))
  }

  predicate AllFit(fields: seq<Field>, m: Message)
    requires |fields| <= |m.slots|
    decreases fields
  {
    fields == [] || (FieldFits(fields[|fields| - 1], m, |fields| - 1) && AllFit(fields[..|fields| - 1], m))
  }

  // ---------------------------------------------------------------- encodings, piece by piece

  /** One item more of a packed array. */
  lemma PackedStep(l: LType, items: seq<Datum>, k: nat)
    requires k < |items|
    ensures PackedBytes(l, items[..k + 1]) == PackedBytes(l, items[..k]) + ValueBytes(l, items[k])
    ensures |PackedBytes(l, items[..k + 1])| <= |PackedBytes(l, items)|
  {
    var more := items[..k + 1];
    assert more[..|more| - 1] == items[..k] && more[|more| - 1] == items[k];
    PackedGrows(l, items, k + 1);
  }

  lemma UnpackedStep(f: Field, items: seq<Datum>, k: nat)
    requires k < |items|
    ensures UnpackedBytes(f, items[..k + 1]) == UnpackedBytes(f, items[..k]) + TaggedBytes(f, items[k])
    ensures |UnpackedBytes(f, items[..k + 1])| <= |UnpackedBytes(f, items)|
  {
    var more := items[..k + 1];
    assert more[..|more| - 1] == items[..k] && more[|more| - 1] == items[k];
    UnpackedGrows(f, items, k + 1);
  }

  lemma {:induction false} PackedGrows(l: LType, items: seq<Datum>, k: nat)
    requires k <= |items|
    ensures |PackedBytes(l, items[..k])| <= |PackedBytes(l, items)|
  {
    if k == |items| {
      assert items[..k] == items;
    } else {
      PackedGrows(l, items[..|items| - 1], k);
      assert items[..|items| - 1][..k] == items[..k];
    }
  }

  lemma {:induction false} UnpackedGrows(f: Field, items: seq<Datum>, k: nat)
    requires k <= |items|
    ensures |UnpackedBytes(f, items[..k])| <= |UnpackedBytes(f, items)|
  {
    if k == |items| {
      assert items[..k] == items;
    } else {
      UnpackedGrows(f, items[..|items| - 1], k);
      assert items[..|items| - 1][..k] == items[..k];
    }
  }

  lemma {:induction false} FieldsGrow(fields: seq<Field>, m: Message, k: nat)
    requires k <= |fields| <= |m.slots|
    ensures |FieldsBytes(fields[..k], m)| <= |FieldsBytes(fields, m)|
    ensures AllFit(fields, m) ==> AllFit(fields[..k], m)
    ensures IsStruct(fields, m) ==> IsStruct(fields[..k], m)
  {
    if k == |fields| {
      assert fields[..k] == fields;
    } else {
      FieldsGrow(fields[..|fields| - 1], m, k);
      assert fields[..|fields| - 1][..k] == fields[..k];
    }
  }

  lemma FieldsStep(fields: seq<Field>, m: Message, k: nat)
    requires k < |fields| <= |m.slots|
    ensures FieldsBytes(fields[..k + 1], m) == FieldsBytes(fields[..k], m) + FieldBytes(fields[k], m, k)
    ensures |FieldsBytes(fields[..k + 1], m)| <= |FieldsBytes(fields, m)|
    ensures AllFit(fields[..k + 1], m) <==> AllFit(fields[..k], m) && FieldFits(fields[k], m, k)
    ensures AllFit(fields, m) ==> AllFit(fields[..k + 1], m)
    ensures IsStruct(fields, m) ==> IsMember(fields[k], m, k)
  {
    var more := fields[..k + 1];
    assert more[..|more| - 1] == fields[..k] && more[|more| - 1] == fields[k];
    FieldsGrow(fields, m, k + 1);
  }

  lemma OnePresent(f: Field, m: Message, i: nat, v: Datum)
    requires i < |m.slots| && IsMember(f, m, i) && !f.htype.Repeated? && Present(f, m, i) == [v]
    ensures FieldBytes(f, m, i) == TaggedBytes(f, v) && (FieldFits(f, m, i) <==> ValueFits(f.ltype, v))
              && HasType(f.ltype, v)
  {
    assert [v][..0] == [];
    assert UnpackedBytes(f, [v]) == TaggedBytes(f, v);
    assert [v][0] == v;
  }

  lemma NonePresent(f: Field, m: Message, i: nat)
    requires i < |m.slots| && Present(f, m, i) == []
    ensures FieldBytes(f, m, i) == [] && FieldFits(f, m, i)
  {
  }
}
