/**
 What the decoder accepts fits: whatever the bytes, a message that is decoded without error is laid out as its
 descriptor says, every number is in the range of its member, every string and array within its bounds. So it can be
 encoded again, and what that decodes to is the same message.
 */
module NanopbSoundness {
  import opened Coding
  import opened NanopbIterator
  import opened NanopbMessages
  import opened NanopbParsing
  import opened NanopbRoundTrip
  import opened NanopbWire
  import opened Reads

  // ---------------------------------------------------------------- fitting

  predicate Fits(l: LType, v: Datum)
    decreases l, 0
  {
    match l
    case LSubmessage(fields) => v.VMessage? && MessageFits(fields, v.m)
    case _ => HasType(l, v) && ValueFits(l, v) && Terminates(l, v)
  }

  predicate SlotFits(f: Field, s: Slot)
    decreases f, 0
  {
    match f.htype
    case Required => s.Single? && Fits(f.ltype, s.v)
    case Optional(hasMember) => (if hasMember then s.WithHas? else s.Single?) && Fits(f.ltype, s.v)
    case Repeated(arraySize) =>
      && s.Items? && |s.items| <= arraySize
      && forall k {:trigger s.items[k]} | 0 <= k < |s.items| :: Fits(f.ltype, s.items[k])
    case OneOf(_) => s.InUnion?
  }

  /** The choice is one of the union's members, and its value fits that member. */
  predicate ChoiceFits(fields: seq<Field>, u: nat, c: Choice)
    decreases fields, 0
  {
    exists j {:trigger fields[j]} :: 0 <= j < |fields| && IsChoice(fields[j], u, c)
  }

  predicate IsChoice(f: Field, u: nat, c: Choice)
    decreases f, 0
  {
    f.htype == OneOf(u) && f.tag == c.tag && Fits(f.ltype, c.v)
  }

  /** All that the struct holds fits, down to the submessages, present or not. */
  predicate MessageFits(fields: seq<Field>, m: Message)
    decreases fields, 1
  {
    && |m.slots| == |fields|
    && (forall i {:trigger SlotFits(fields[i], m.slots[i])} | 0 <= i < |fields| :: SlotFits(fields[i], m.slots[i]))
    && forall u | u in m.unions :: ChoiceFits(fields, u, m.unions[u])
  }

  /** Members have room for their headers and terminators, and the defaults fit. */
  predicate DefaultsFit(fields: seq<Field>)
    decreases fields
  {
    forall i | 0 <= i < |fields| :: DefaultFits(fields[i])
  }

  predicate DefaultFits(f: Field)
    decreases f, 0
  {
    RoomFor(f.ltype) && (!f.ltype.LSubmessage? && f.default.Some? ==> Fits(f.ltype, f.default.value))
  }

  predicate RoomFor(l: LType)
    decreases l, 0
  {
    match l
    case LBytes(size) => size >= BYTES_HEADER
    case LString(size) => size >= 1
    case LSubmessage(fields) => DefaultsFit(fields)
    case _ => true
  }

  // ---------------------------------------------------------------- defaults

  lemma {:induction false} DefaultValueFits(f: Field)
    requires DefaultFits(f)
    ensures Fits(f.ltype, DefaultValue(f)) && Fits(f.ltype, ItemDefault(f))
    decreases f, 0
  {
    if f.ltype.LSubmessage? {
      DefaultMessageFits(f.ltype.fields);
    }
  }

  lemma {:induction false} DefaultMessageFits(fields: seq<Field>)
    requires DefaultsFit(fields)
    ensures MessageFits(fields, DefaultMessage(fields))
    decreases fields
  {
    forall i | 0 <= i < |fields|
      ensures SlotFits(fields[i], DefaultMessage(fields).slots[i])
    {
      DefaultSlotAt(fields, i);
      DefaultValueFits(fields[i]);
    }
  }

  // ---------------------------------------------------------------- what is read fits

  lemma NumberFits(l: LType, data: Bytes)
    requires IsPackable(l) && ReadNumber(l, data).Some?
    ensures Fits(l, ReadNumber(l, data).value.0)
  {
  }

  lemma StringMemberFits(l: LType, s: Bytes)
    requires !IsPackable(l) && !l.LSubmessage? && StringMember(l, s).Some?
    ensures Fits(l, StringMember(l, s).value)
  {
  }

  lemma {:induction false} PackedFit(l: LType, arraySize: nat, data: Bytes, items: seq<Datum>)
    requires IsPackable(l) && |items| <= arraySize && forall k | 0 <= k < |items| :: Fits(l, items[k])
    ensures var r := ReadPacked(l, arraySize, data, items);
            r.Some? ==> |r.value| <= arraySize && forall k | 0 <= k < |r.value| :: Fits(l, r.value[k])
    decreases |data|
  {
    if data != [] && |items| < arraySize && ReadNumber(l, data).Some? {
      var (v, rest) := ReadNumber(l, data).value;
      NumberFits(l, data);
      PackedFit(l, arraySize, rest, items + [v]);
    }
  }

  /** A submessage is read onto what is held, if that is a message of its kind. */
  ghost predicate HeldFits(l: LType, held: Datum) {
    l.LSubmessage? && held.VMessage? && |held.m.slots| == |l.fields| ==> MessageFits(l.fields, held.m)
  }

  lemma {:induction false} ValueReadFits(l: LType, data: Bytes, held: Datum)
    requires IsFieldType(l) && RoomFor(l) && HeldFits(l, held) && ReadValue(l, data, held).Some?
    ensures Fits(l, ReadValue(l, data, held).value.0)
    decreases l, 0
  {
    if IsPackable(l) {
      NumberFits(l, data);
    } else {
      var (s, rest) := ReadString(data).value;
      if l.LSubmessage? {
        var start := if held.VMessage? && |held.m.slots| == |l.fields| then held.m else DefaultMessage(l.fields);
        DefaultMessageFits(l.fields);
        MessageReadFits(l.fields, s, start);
      } else {
        StringMemberFits(l, s);
      }
    }
  }

  lemma {:induction false} MessageReadFits(fields: seq<Field>, data: Bytes, m: Message)
    requires IsDescriptor(fields) && DefaultsFit(fields) && MessageFits(fields, m) && ReadMessage(fields, data, m).Some?
    ensures MessageFits(fields, ReadMessage(fields, data, m).value)
    decreases fields, 1
  {
    FieldsReadFit(fields, data, State(m, {}));
  }

  lemma {:induction false} FieldsReadFit(fields: seq<Field>, data: Bytes, s: State)
    requires IsDescriptor(fields) && DefaultsFit(fields) && MessageFits(fields, s.m)
    requires ReadFields(fields, data, s).Some?
    ensures MessageFits(fields, ReadFields(fields, data, s).value.m)
    decreases fields, 0, |data|
  {
    var t := ReadTag(data);
    if t.Tag? {
      var (s', rest) := ReadTagged(fields, t.wire, t.tag, t.rest, s).value;
      TaggedReadFits(fields, t.wire, t.tag, t.rest, s);
      FieldsReadFit(fields, rest, s');
    }
  }

  lemma {:induction false} TaggedReadFits(fields: seq<Field>, wire: WireType, tag: nat, data: Bytes, s: State)
    requires IsDescriptor(fields) && DefaultsFit(fields) && MessageFits(fields, s.m)
    requires ReadTagged(fields, wire, tag, data, s).Some?
    ensures MessageFits(fields, ReadTagged(fields, wire, tag, data, s).value.0.m)
    decreases fields, 0, 0
  {
    if !(fields == [] && tag == 0) && HasTag(fields, tag) {
      var i := IndexOf(fields, tag);
      FieldReadFits(fields, i, wire, data, s.m);
    }
  }

  lemma {:induction false} FieldReadFits(fields: seq<Field>, i: nat, wire: WireType, data: Bytes, m: Message)
    requires IsDescriptor(fields) && DefaultsFit(fields) && MessageFits(fields, m) && i < |fields|
    requires ReadField(fields[i], i, wire, data, m).Some?
    ensures MessageFits(fields, ReadField(fields[i], i, wire, data, m).value.0)
    decreases fields[i], 1
  {
    var f := fields[i];
    assert SlotFits(f, m.slots[i]) && IsFieldDescriptor(f) && DefaultFits(f);
    DefaultValueFits(f);
    match m.slots[i]
    case Items(items) =>
      if wire == WireString && IsPackable(f.ltype) {
        PackedFit(f.ltype, f.htype.arraySize, ReadString(data).value.0, items);
        var all := ReadPacked(f.ltype, f.htype.arraySize, ReadString(data).value.0, items).value;
        SlotStays(fields, i, m, Items(all));
      } else {
        ValueReadFits(f.ltype, data, ItemDefault(f));
        SlotStays(fields, i, m, Items(items + [ReadValue(f.ltype, data, ItemDefault(f)).value.0]));
      }
    case InUnion =>
      var held := HeldIn(f, m);
      HeldInFits(fields, i, m);
      ValueReadFits(f.ltype, data, held);
      ChoiceStays(fields, i, m, ReadValue(f.ltype, data, held).value.0);
    case _ =>
      ValueReadFits(f.ltype, data, m.slots[i].v);
      SlotStays(fields, i, m, Updated(m.slots[i], ReadValue(f.ltype, data, m.slots[i].v).value.0));
  }

  lemma SlotStays(fields: seq<Field>, i: nat, m: Message, s: Slot)
    requires MessageFits(fields, m) && i < |fields| && SlotFits(fields[i], s)
    ensures MessageFits(fields, SetSlot(m, i, s))
  {
  }

  /** What a union member is read onto. */
  function HeldIn(f: Field, m: Message): Datum
    requires f.htype.OneOf?
  {
    var u := f.htype.union;
    if u in m.unions && m.unions[u].tag == f.tag then m.unions[u].v else ItemDefault(f)
  }

  lemma HeldInFits(fields: seq<Field>, i: nat, m: Message)
    requires IsDescriptor(fields) && MessageFits(fields, m) && i < |fields| && fields[i].htype.OneOf?
    requires Fits(fields[i].ltype, ItemDefault(fields[i]))
    ensures Fits(fields[i].ltype, HeldIn(fields[i], m)) && HeldFits(fields[i].ltype, HeldIn(fields[i], m))
  {
    var f := fields[i];
    var u := f.htype.union;
    if u in m.unions && m.unions[u].tag == f.tag {
      assert ChoiceFits(fields, u, m.unions[u]);
      var j :| 0 <= j < |fields| && IsChoice(fields[j], u, m.unions[u]);
      assert !(i < j) && !(j < i);
    }
  }

  lemma ChoiceStays(fields: seq<Field>, i: nat, m: Message, v: Datum)
    requires MessageFits(fields, m) && i < |fields| && fields[i].htype.OneOf? && Fits(fields[i].ltype, v)
    ensures MessageFits(fields, m.(unions := m.unions[fields[i].htype.union := Choice(fields[i].tag, v)]))
  {
    var c := Choice(fields[i].tag, v);
    assert IsChoice(fields[i], fields[i].htype.union, c);
    var m' := m.(unions := m.unions[fields[i].htype.union := c]);
    forall u | u in m'.unions
      ensures ChoiceFits(fields, u, m'.unions[u])
    {
    }
  }

  // ---------------------------------------------------------------- what fits can be encoded

  lemma {:induction false} ValueIsTyped(l: LType, v: Datum)
    requires IsFieldType(l) && Fits(l, v)
    ensures HasType(l, v) && ValueFits(l, v) && Terminates(l, v)
    decreases l, 0
  {
    if l.LSubmessage? {
      MessageIsTyped(l.fields, v.m);
    }
  }

  lemma {:induction false} MessageIsTyped(fields: seq<Field>, m: Message)
    requires IsDescriptor(fields) && MessageFits(fields, m)
    ensures IsMessage(fields, m) && AllFit(fields, m) && AllTerminate(fields, m)
    decreases fields, 1
  {
    FieldsAreTyped(fields, m, |fields|);
    assert fields[..|fields|] == fields;
    forall u | u in m.unions
      ensures exists j :: 0 <= j < |fields| && fields[j].htype == OneOf(u) && fields[j].tag == m.unions[u].tag
    {
      assert ChoiceFits(fields, u, m.unions[u]);
      var j :| 0 <= j < |fields| && IsChoice(fields[j], u, m.unions[u]);
      assert fields[j].htype == OneOf(u);
    }
  }

  lemma {:induction false} FieldsAreTyped(fields: seq<Field>, m: Message, k: nat)
    requires IsDescriptor(fields) && MessageFits(fields, m) && k <= |fields|
    ensures IsStruct(fields[..k], m) && AllFit(fields[..k], m) && AllTerminate(fields[..k], m)
    decreases fields, 0, k
  {
    if k > 0 {
      FieldsAreTyped(fields, m, k - 1);
      FieldIsTyped(fields, m, k - 1);
      var some := fields[..k];
      assert some[..|some| - 1] == fields[..k - 1] && some[|some| - 1] == fields[k - 1];
    }
  }

  lemma {:induction false} FieldIsTyped(fields: seq<Field>, m: Message, i: nat)
    requires IsDescriptor(fields) && MessageFits(fields, m) && i < |fields|
    ensures IsMember(fields[i], m, i) && FieldFits(fields[i], m, i) && FieldTerminates(fields[i], m, i)
    decreases fields[i], 2
  {
    var f := fields[i];
    assert SlotFits(f, m.slots[i]) && IsFieldDescriptor(f);
    PresentFit(fields, m, i);
    ItemsAreTyped(f, Present(f, m, i));
    if f.htype.Repeated? {
      ItemsAreTyped(f, m.slots[i].items);
    } else if !f.htype.OneOf? {
      ValueIsTyped(f.ltype, m.slots[i].v);
    } else if f.htype.union in m.unions && m.unions[f.htype.union].tag == f.tag {
      assert Present(f, m, i) == [m.unions[f.htype.union].v];
      ValueIsTyped(f.ltype, m.unions[f.htype.union].v);
    }
  }

  /** What is present of a field fits. */
  lemma PresentFit(fields: seq<Field>, m: Message, i: nat)
    requires IsDescriptor(fields) && MessageFits(fields, m) && i < |fields|
    ensures forall k | 0 <= k < |Present(fields[i], m, i)| :: Fits(fields[i].ltype, Present(fields[i], m, i)[k])
    ensures fields[i].htype.Repeated? ==> |Present(fields[i], m, i)| <= fields[i].htype.arraySize
  {
    var f := fields[i];
    assert SlotFits(f, m.slots[i]);
    if f.htype.OneOf? && f.htype.union in m.unions && m.unions[f.htype.union].tag == f.tag {
      var u := f.htype.union;
      assert ChoiceFits(fields, u, m.unions[u]);
      var j :| 0 <= j < |fields| && IsChoice(fields[j], u, m.unions[u]);
      assert !(i < j) && !(j < i);
    }
  }

  lemma {:induction false} ItemsAreTyped(f: Field, items: seq<Datum>)
    requires IsFieldType(f.ltype) && forall k | 0 <= k < |items| :: Fits(f.ltype, items[k])
    ensures AllHaveType(f.ltype, items) && ItemsFit(f.ltype, items) && ItemsTerminate(f.ltype, items)
    decreases f, 1, |items|
  {
    if items != [] {
      ItemsAreTyped(f, items[..|items| - 1]);
      ValueIsTyped(f.ltype, items[|items| - 1]);
      forall k | 0 <= k < |items|
        ensures HasType(f.ltype, items[k]) && ValueFits(f.ltype, items[k])
      {
        assert k < |items| - 1 ==> items[k] == items[..|items| - 1][k];
      }
    }
  }

  // ---------------------------------------------------------------- what the decoder accepts

  /** Whatever bytes are decoded without error, the struct that comes out fits its descriptor. */
  lemma DecodedFits(fields: seq<Field>, data: Bytes)
    requires IsDescriptor(fields) && DefaultsFit(fields) && Decode(fields, data).Some?
    ensures var m := Decode(fields, data).value;
            MessageFits(fields, m) && IsMessage(fields, m) && AllFit(fields, m) && AllTerminate(fields, m)
  {
    DefaultMessageFits(fields);
    MessageReadFits(fields, data, DefaultMessage(fields));
    MessageIsTyped(fields, Decode(fields, data).value);
  }

  /** And it survives another round: encoded again, it decodes to itself in canonical form. */
  lemma DecodedRoundTrips(fields: seq<Field>, data: Bytes)
    requires IsDescriptor(fields) && DefaultsFit(fields) && Decode(fields, data).Some?
    requires |FieldsBytes(fields, Decode(fields, data).value)| < TWO_32
    ensures var m := Decode(fields, data).value; Decode(fields, FieldsBytes(fields, m)) == Some(Canonical(fields, m))
  {
    DecodedFits(fields, data);
    RoundTrip(fields, Decode(fields, data).value);
  }
}
