/**
 What the decoder gives back has the same present fields as what was encoded.
 */
module NanopbPresence {
  import opened Coding
  import opened NanopbMessages
  import opened NanopbParsing
  import opened NanopbRoundTrip
  import opened NanopbWire
  import opened Reads

  // ---------------------------------------------------------------- same present fields

  predicate SameValue(l: LType, a: Datum, b: Datum)
    decreases l, 0
  {
    match l
    case LSubmessage(fields) =>
      && a.VMessage? && b.VMessage? && |a.m.slots| == |fields| == |b.m.slots| && SameMessage(fields, a.m, b.m)
    case _ => a == b
  }

  predicate SameItems(l: LType, a: seq<Datum>, b: seq<Datum>)
    decreases l, 1
  {
    |a| == |b| && forall k {:trigger SameValue(l, a[k], b[k])} | 0 <= k < |a| :: SameValue(l, a[k], b[k])
  }

  predicate SameField(f: Field, a: Message, b: Message, i: nat)
    requires i < |a.slots| == |b.slots|
    decreases f, 0
  {
    SameItems(f.ltype, Present(f, a, i), Present(f, b, i))
  }

  /** Field by field, the same is present, down to the submessages. */
  predicate SameMessage(fields: seq<Field>, a: Message, b: Message)
    requires |fields| == |a.slots| == |b.slots|
    decreases fields
  {
    forall i {:trigger SameField(fields[i], a, b, i)} | 0 <= i < |fields| :: SameField(fields[i], a, b, i)
  }

  /** The field has no has_ member and is zero, so that the encoder leaves it out. */
  predicate IsOmitted(f: Field, m: Message, i: nat)
    requires i < |m.slots|
  {
    f.htype == Optional(false) && m.slots[i].Single? && IsZero(f.ltype, m.slots[i].v)
  }

  /** No field that is left out has a default other than zero, which would come back in its place. */
  predicate OmittedAreDefaults(fields: seq<Field>, m: Message)
    requires |fields| == |m.slots|
    decreases fields
  {
    forall i {:trigger OmittedIsDefault(fields[i], m, i)} | 0 <= i < |fields| :: OmittedIsDefault(fields[i], m, i)
  }

  predicate OmittedIsDefault(f: Field, m: Message, i: nat)
    requires i < |m.slots|
    decreases f, 0
  {
    (IsOmitted(f, m, i) ==> IsZero(f.ltype, DefaultValue(f))) && OmittedInItems(f.ltype, Present(f, m, i))
  }

  predicate OmittedInItems(l: LType, items: seq<Datum>)
    decreases l, 1
  {
    forall k {:trigger OmittedIn(l, items[k])} | 0 <= k < |items| :: OmittedIn(l, items[k])
  }

  /** The same inside a value, if it is a submessage. */
  predicate OmittedIn(l: LType, v: Datum)
    decreases l, 0
  {
    match l
    case LSubmessage(fields) => v.VMessage? && |v.m.slots| == |fields| && OmittedAreDefaults(fields, v.m)
    case _ => true
  }

  // ---------------------------------------------------------------- the canonical message, member by member

  lemma {:induction false} CanonicalSlotAt(fields: seq<Field>, m: Message, i: nat)
    requires i < |fields| <= |m.slots|
    ensures CanonicalSlots(fields, m)[i] == CanonicalSlot(fields[i], m, i)
    decreases |fields|
  {
    if i < |fields| - 1 {
      CanonicalSlotAt(fields[..|fields| - 1], m, i);
    }
  }

  lemma {:induction false} UnionIsKept(fields: seq<Field>, m: Message, i: nat, k: nat)
    requires i < k <= |fields| <= |m.slots| && fields[i].htype.OneOf? && Present(fields[i], m, i) != []
    ensures fields[i].htype.union in CanonicalUnions(fields[..k], m)
    decreases k
  {
    var some := fields[..k];
    assert some[..|some| - 1] == fields[..k - 1] && some[|some| - 1] == fields[k - 1];
    if i < k - 1 {
      UnionIsKept(fields, m, i, k - 1);
    }
  }

  /** A union is set in the canonical message if it is set in the message: by the same member, holding the same. */
  lemma CanonicalUnion(fields: seq<Field>, m: Message, u: nat)
    requires IsDescriptor(fields) && IsMessage(fields, m)
    ensures u in m.unions <==> u in CanonicalUnions(fields, m)
    ensures u in m.unions ==> HeldBy(fields, m, |fields|, u, CanonicalUnions(fields, m)[u])
  {
    assert fields[..|fields|] == fields;
    if u in m.unions {
      var j :| 0 <= j < |fields| && fields[j].htype == OneOf(u) && fields[j].tag == m.unions[u].tag;
      FieldsStep(fields, m, j);
      UnionIsKept(fields, m, j, |fields|);
    }
    if u in CanonicalUnions(fields, m) {
      UnionsAreHeld(fields, m, |fields|, u);
    }
  }

  // ---------------------------------------------------------------- what is not zero stays so

  lemma {:induction false} NonZeroStays(l: LType, v: Datum)
    requires IsFieldType(l) && HasType(l, v) && !IsZero(l, v)
    ensures !IsZero(l, CanonicalValue(l, v))
    decreases l, 1
  {
    if l.LSubmessage? {
      var c := Canonical(l.fields, v.m);
      assert l.fields[..|l.fields|] == l.fields;
      ZeroFieldwise(l.fields, c, |l.fields|);
      ZeroFieldwise(l.fields, v.m, |l.fields|);
      var i :| 0 <= i < |l.fields| && !ZeroAt(l.fields, v.m, i);
      NonZeroFieldStays(l.fields, v.m, i);
      assert !ZeroAt(l.fields, c, i);
    }
  }

  predicate ZeroAt(fields: seq<Field>, m: Message, i: nat) {
    i < |fields| && i < |m.slots| && IsZeroField(fields[i], m, i)
  }

  lemma {:induction false} ZeroFieldwise(fields: seq<Field>, m: Message, k: nat)
    requires k <= |fields| <= |m.slots|
    ensures AllZero(fields[..k], m) <==> forall i {:trigger ZeroAt(fields, m, i)} | 0 <= i < k :: ZeroAt(fields, m, i)
    decreases k
  {
    if k > 0 {
      var some := fields[..k];
      assert some[..|some| - 1] == fields[..k - 1] && some[|some| - 1] == fields[k - 1];
      ZeroFieldwise(fields, m, k - 1);
      assert AllZero(some, m) <==> ZeroAt(fields, m, k - 1) && AllZero(fields[..k - 1], m);
    }
  }

  lemma {:induction false} NonZeroFieldStays(fields: seq<Field>, m: Message, i: nat)
    requires IsDescriptor(fields) && IsMessage(fields, m) && i < |fields| && !IsZeroField(fields[i], m, i)
    ensures !IsZeroField(fields[i], Canonical(fields, m), i)
    decreases fields[i], 1
  {
    var f := fields[i];
    assert IsFieldDescriptor(f);
    FieldsStep(fields, m, i);
    CanonicalSlotAt(fields, m, i);
    match f.htype
    case Required =>
    case Repeated(_) =>
    case OneOf(u) => CanonicalUnion(fields, m, u);
    case Optional(hasMember) =>
      OneItem(f.ltype, m.slots[i].v);
      if !hasMember {
        NonZeroStays(f.ltype, m.slots[i].v);
      }
  }

  // ---------------------------------------------------------------- the same is present

  /**
   In the canonical message a field has present what it had, in canonical form; what was left out is at its default.
   */
  lemma PresentInCanonical(fields: seq<Field>, m: Message, i: nat)
    requires IsDescriptor(fields) && IsMessage(fields, m) && i < |fields|
    ensures var f := fields[i];
            Present(f, Canonical(fields, m), i) ==
            if IsOmitted(f, m, i) && !IsZero(f.ltype, DefaultValue(f)) then [DefaultValue(f)]
            else CanonicalPresent(f, m, i)
    ensures IsOmitted(fields[i], m, i) ==> Present(fields[i], m, i) == []
  {
    var f := fields[i];
    assert IsFieldDescriptor(f);
    FieldsStep(fields, m, i);
    CanonicalSlotAt(fields, m, i);
    match f.htype
    case Required => OneItem(f.ltype, m.slots[i].v);
    case Repeated(_) =>
    case OneOf(u) =>
      CanonicalUnion(fields, m, u);
      if u in m.unions {
        OneItem(f.ltype, m.unions[u].v);
      }
    case Optional(hasMember) =>
      OneItem(f.ltype, m.slots[i].v);
      if !hasMember && !IsZero(f.ltype, m.slots[i].v) {
        NonZeroStays(f.ltype, m.slots[i].v);
      }
  }

  /** The canonical message has the same present fields exactly when nothing that is left out has a non-zero default. */
  lemma {:induction false} CanonicalIsSameExactlyWhen(fields: seq<Field>, m: Message)
    requires IsDescriptor(fields) && IsMessage(fields, m)
    ensures SameMessage(fields, m, Canonical(fields, m)) <==> OmittedAreDefaults(fields, m)
    decreases fields
  {
    forall i | 0 <= i < |fields|
      ensures SameField(fields[i], m, Canonical(fields, m), i) <==> OmittedIsDefault(fields[i], m, i)
    {
      PresentInCanonical(fields, m, i);
      FieldsStep(fields, m, i);
      assert IsFieldDescriptor(fields[i]);
      PresentHaveType(fields[i], m, i);
      ItemsAreSame(fields[i], Present(fields[i], m, i));
    }
  }

  lemma PresentHaveType(f: Field, m: Message, i: nat)
    requires i < |m.slots| && IsMember(f, m, i)
    ensures AllHaveType(f.ltype, Present(f, m, i))
  {
  }

  lemma {:induction false} ItemsAreSame(f: Field, items: seq<Datum>)
    requires IsFieldType(f.ltype) && AllHaveType(f.ltype, items)
    ensures SameItems(f.ltype, items, CanonicalItems(f.ltype, items)) <==> OmittedInItems(f.ltype, items)
    decreases f, |items|
  {
    var c := CanonicalItems(f.ltype, items);
    forall k | 0 <= k < |items|
      ensures |c| == |items| && (SameValue(f.ltype, items[k], c[k]) <==> OmittedIn(f.ltype, items[k]))
    {
      assert HasType(f.ltype, items[k]);
      CanonicalItemAt(f.ltype, items, k);
      if f.ltype.LSubmessage? {
        CanonicalIsSameExactlyWhen(f.ltype.fields, items[k].m);
      }
    }
  }

  lemma {:induction false} CanonicalItemAt(l: LType, items: seq<Datum>, k: nat)
    requires k < |items|
    ensures |CanonicalItems(l, items)| == |items| && CanonicalItems(l, items)[k] == CanonicalValue(l, items[k])
    decreases |items|
  {
    if k < |items| - 1 {
      CanonicalItemAt(l, items[..|items| - 1], k);
    }
  }

  /**
   What is decoded from an encoding: something, exactly when every string present leaves room for its terminator; and
   then the same present fields as the message, exactly when nothing that was left out has a non-zero default.
   */
  lemma DecodedIsSameExactlyWhen(fields: seq<Field>, m: Message)
    requires IsDescriptor(fields) && IsMessage(fields, m) && AllFit(fields, m) && |FieldsBytes(fields, m)| < TWO_32
    ensures var r := Decode(fields, FieldsBytes(fields, m));
            && (r.Some? <==> AllTerminate(fields, m))
            && (r.Some? ==> (SameMessage(fields, m, r.value) <==> OmittedAreDefaults(fields, m)))
  {
    RoundTrip(fields, m);
    CanonicalIsSameExactlyWhen(fields, m);
  }

  // ---------------------------------------------------------------- what is not written

  /** No required fields, and no defaults but the zeros: what a message of proto3 has. */
  predicate AllImplicit(fields: seq<Field>)
    decreases fields
  {
    forall i | 0 <= i < |fields| :: IsImplicit(fields[i])
  }

  predicate IsImplicit(f: Field)
    decreases f, 0
  {
    !f.htype.Required? && f.default.None? && HasImplicit(f.ltype)
  }

  predicate HasImplicit(l: LType)
    decreases l, 0
  {
    match l
    case LSubmessage(fields) => AllImplicit(fields)
    case LFixedLengthBytes(size) => size == 0
    case _ => true
  }

  lemma {:induction false} DefaultIsZero(f: Field)
    requires IsImplicit(f)
    ensures IsZero(f.ltype, DefaultValue(f))
    decreases f, 0
  {
    if f.ltype.LSubmessage? {
      AllDefaultsAreZero(f.ltype.fields);
    }
  }

  lemma {:induction false} AllDefaultsAreZero(fields: seq<Field>)
    requires AllImplicit(fields)
    ensures AllZero(fields, DefaultMessage(fields))
    decreases fields
  {
    DefaultsAreZeroUpTo(fields, |fields|);
    assert fields[..|fields|] == fields;
  }

  lemma {:induction false} DefaultsAreZeroUpTo(fields: seq<Field>, k: nat)
    requires AllImplicit(fields) && k <= |fields|
    ensures AllZero(fields[..k], DefaultMessage(fields))
    decreases fields, k
  {
    if k > 0 {
      DefaultsAreZeroUpTo(fields, k - 1);
      assert fields[..k][..k - 1] == fields[..k - 1] && IsImplicit(fields[k - 1]);
      DefaultSlotAt(fields, k - 1);
      DefaultIsZero(fields[k - 1]);
    }
  }

  lemma NothingWritten(f: Field, i: nat, m: Message)
    requires IsImplicit(f) && i < |m.slots| && m.slots[i] == DefaultSlot(f) && m.unions == map[]
    ensures FieldBytes(f, m, i) == []
  {
    DefaultIsZero(f);
    NonePresent(f, m, i);
  }

  /** A message that holds nothing but zeros is encoded in no bytes at all. */
  lemma ZerosAreNotWritten(fields: seq<Field>)
    requires AllImplicit(fields)
    ensures FieldsBytes(fields, DefaultMessage(fields)) == []
  {
    ZerosAreNotWrittenUpTo(fields, |fields|);
    assert fields[..|fields|] == fields;
  }

  lemma {:induction false} ZerosAreNotWrittenUpTo(fields: seq<Field>, k: nat)
    requires AllImplicit(fields) && k <= |fields|
    ensures FieldsBytes(fields[..k], DefaultMessage(fields)) == []
  {
    if k > 0 {
      var m := DefaultMessage(fields);
      ZerosAreNotWrittenUpTo(fields, k - 1);
      assert FieldBytes(fields[k - 1], m, k - 1) == [] by {
        DefaultSlotAt(fields, k - 1);
        assert IsImplicit(fields[k - 1]);
        NothingWritten(fields[k - 1], k - 1, m);
      }
      FieldsStep(fields, m, k - 1);
    }
  }

  // ---------------------------------------------------------------- what does not come back

  /** A string that fills its member: the encoder takes it, and the decoder refuses what the encoder wrote. */
  lemma FullStringIsRefused(tag: nat, chars: Bytes)
    requires 1 <= tag <= MAX_TAG && (forall i | 0 <= i < |chars| :: chars[i] != 0)
    requires |TagBytes(WireString, tag)| + |Prefixed(chars)| < TWO_32
    ensures var fields, m := [Field(tag, Required, LString(|chars|), None)], Message([Single(VString(chars))], map[]);
            && IsDescriptor(fields) && IsMessage(fields, m) && AllFit(fields, m) && |FieldsBytes(fields, m)| < TWO_32
            && Decode(fields, FieldsBytes(fields, m)) == None
  {
    var f, m := Field(tag, Required, LString(|chars|), None), Message([Single(VString(chars))], map[]);
    assert Present(f, m, 0) == [VString(chars)];
    assert [f][..0] == [] && [f][..1] == [f];
    assert IsMember(f, m, 0);
    OnePresent(f, m, 0, VString(chars));
    FieldsStep([f], m, 0);
    OneItem(f.ltype, VString(chars));
    assert !FieldTerminates(f, m, 0);
    RoundTrip([f], m);
  }
}
