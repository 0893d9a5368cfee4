/**
 Decoding what was encoded gives the message back, up to members that are not present.
 */
module NanopbRoundTrip {
  import opened Coding
  import opened NanopbIterator
  import opened NanopbMessages
  import opened NanopbParsing
  import opened NanopbWire
  import opened Reads
  import Slices

  // ---------------------------------------------------------------- what an encoding keeps

  /** The value, with whatever is not present in it at its default. */
  function CanonicalValue(l: LType, v: Datum): Datum
    decreases l, 0
  {
    if l.LSubmessage? && v.VMessage? && |l.fields| <= |v.m.slots| then VMessage(Canonical(l.fields, v.m)) else v
  }

  function CanonicalItems(l: LType, items: seq<Datum>): (r: seq<Datum>)
    ensures |r| == |items|
    decreases l, 1, |items|
  {
    if items == [] then [] else CanonicalItems(l, items[..|items| - 1]) + [CanonicalValue(l, items[|items| - 1])]
  }

  function CanonicalPresent(f: Field, m: Message, i: nat): (r: seq<Datum>)
    requires i < |m.slots|
    ensures |r| == |Present(f, m, i)|
    decreases f, 0
  {
    CanonicalItems(f.ltype, Present(f, m, i))
  }

  function CanonicalSlot(f: Field, m: Message, i: nat): Slot
    requires i < |m.slots|
    decreases f, 1
  {
    var vs := CanonicalPresent(f, m, i);
    match f.htype
    case OneOf(_) => InUnion
    case Repeated(_) => Items(vs)
    case _ => if vs == [] then DefaultSlot(f) else Updated(DefaultSlot(f), vs[0])
  }

  function CanonicalSlots(fields: seq<Field>, m: Message): (slots: seq<Slot>)
    requires |fields| <= |m.slots|
    ensures |slots| == |fields|
    decreases fields, 0
  {
    if fields == [] then []
    else CanonicalSlots(fields[..|fields| - 1], m) + [CanonicalSlot(fields[|fields| - 1], m, |fields| - 1)]
  }

  function CanonicalUnions(fields: seq<Field>, m: Message): map<nat, Choice>
    requires |fields| <= |m.slots|
    decreases fields, 0
  {
    if fields == [] then map[]
    else
      var f := fields[|fields| - 1];
      var before := CanonicalUnions(fields[..|fields| - 1], m);
      var vs := CanonicalPresent(f, m, |fields| - 1);
      if f.htype.OneOf? && vs != [] then before[f.htype.union := Choice(f.tag, vs[0])] else before
  }

  /** The message with every member that is not present at its default. */
  function Canonical(fields: seq<Field>, m: Message): (r: Message)
    requires |fields| <= |m.slots|
    ensures |r.slots| == |fields|
    decreases fields, 1
  {
    Message(CanonicalSlots(fields, m), CanonicalUnions(fields, m))
  }

  // ---------------------------------------------------------------- strings that the decoder has no room for

  /** Strings end inside their members, so that the decoder's terminator fits. */
  predicate Terminates(l: LType, v: Datum)
    decreases l, 0
  {
    match l
    case LString(size) => v.VString? ==> |v.chars| < size
    case LSubmessage(fields) => v.VMessage? && |fields| <= |v.m.slots| ==> AllTerminate(fields, v.m)
    case _ => true
  }

  predicate ItemsTerminate(l: LType, items: seq<Datum>)
    decreases l, 1, |items|
  {
    items == [] || (ItemsTerminate(l, items[..|items| - 1]) && Terminates(l, items[|items| - 1]))
  }

  predicate AllTerminate(fields: seq<Field>, m: Message)
    requires |fields| <= |m.slots|
    decreases fields
  {
    fields == [] || (AllTerminate(fields[..|fields| - 1], m) && FieldTerminates(fields[|fields| - 1], m, |fields| - 1))
  }

  predicate FieldTerminates(f: Field, m: Message, i: nat)
    requires i < |m.slots|
    decreases f, 0
  {
    ItemsTerminate(f.ltype, Present(f, m, i))
  }

  // ---------------------------------------------------------------- values are read

  lemma NumberIsRead(l: LType, v: Datum, rest: Bytes)
    requires IsPackable(l) && HasType(l, v)
    ensures ReadNumber(l, ValueBytes(l, v) + rest) == Some((v, rest)) && |ValueBytes(l, v)| > 0
  {
    match l
    case LBool => Varint32IsRead(if v.b then 1 else 0, rest);
    case LVarint(w) =>
      VarintIsRead(Unsigned64(v.n), rest);
      SignedRoundTrip(v.n);
    case LUVarint(_) => VarintIsRead(v.n, rest);
    case LSVarint(_) =>
      VarintIsRead(ZigZag(v.n), rest);
      ZigZagRoundTrip(v.n);
    case LFixed32 =>
      Fixed32RoundTrip(v.n, rest);
      Slices.DropFront(EncodeFixed32(v.n), rest);
    case LFixed64 =>
      Fixed64RoundTrip(v.n, rest);
      Slices.DropFront(EncodeFixed64(v.n), rest);
  }

  lemma {:induction false} TerminatedIsWhole(data: Bytes)
    requires forall i | 0 <= i < |data| :: data[i] != 0
    ensures Terminated(data) == data
  {
    if data != [] {
      TerminatedIsWhole(data[1..]);
      assert data == [data[0]] + data[1..];
    }
  }

  lemma StringsAreRead(l: LType, v: Datum, rest: Bytes, held: Datum)
    requires !IsPackable(l) && !l.LSubmessage? && HasType(l, v) && ValueFits(l, v) && |ValueBytes(l, v)| < TWO_32
    ensures ReadValue(l, ValueBytes(l, v) + rest, held) == if Terminates(l, v) then Some((v, rest)) else None
  {
    var s := if v.VString? then v.chars else v.data;
    assert ValueBytes(l, v) == Prefixed(s);
    StringIsRead(s, rest);
    if v.VString? {
      TerminatedIsWhole(s);
    }
  }

  lemma {:induction false} PackedIsRead(l: LType, arraySize: nat, items: seq<Datum>, k: nat, rest: Bytes)
    requires IsPackable(l) && AllHaveType(l, items) && k <= |items| <= arraySize
    ensures ReadPacked(l, arraySize, PackedBytes(l, items[..k]) + rest, [])
              == ReadPacked(l, arraySize, rest, items[..k])
    decreases k
  {
    if k == 0 {
      assert PackedBytes(l, items[..0]) + rest == rest;
    } else {
      var some := items[..k];
      assert some[..|some| - 1] == items[..k - 1] && some[|some| - 1] == items[k - 1] && HasType(l, items[k - 1]);
      var item := ValueBytes(l, items[k - 1]);
      Slices.Associates(PackedBytes(l, items[..k - 1]), item, rest);
      PackedIsRead(l, arraySize, items, k - 1, item + rest);
      NumberIsRead(l, items[k - 1], rest);
      assert items[..k - 1] + [items[k - 1]] == items[..k];
    }
  }

  // ---------------------------------------------------------------- fields are read

  /** A tag of the descriptor leads to its field. */
  lemma TagLeadsToField(fields: seq<Field>, i: nat, w: WireType, data: Bytes, s: State)
    requires IsDescriptor(fields) && i < |fields| == |s.m.slots| && w != WireOther
    ensures ReadFields(fields, TagBytes(w, fields[i].tag) + data, s)
         == match ReadField(fields[i], i, w, data, s.m)
            case None => None
            case Some((m, rest)) => ReadFields(fields, rest, State(m, Seen(fields, i, s.seen)))
  {
    FoundAt(fields, i);
    TagIsRead(w, fields[i].tag, data);
  }

  // ---------------------------------------------------------------- how far a message has been read

  function SeenBefore(fields: seq<Field>, k: nat): set<nat>
    requires k <= |fields|
  {
    if k == 0 then {} else Seen(fields, k - 1, SeenBefore(fields, k - 1))
  }

  /** The first k fields as they will be, the others at their defaults. */
  function Partial(fields: seq<Field>, m: Message, k: nat): (s: State)
    requires k <= |fields| <= |m.slots|
    ensures |s.m.slots| == |fields|
  {
    State(Message(CanonicalSlots(fields[..k], m) + DefaultSlots(fields)[k..], CanonicalUnions(fields[..k], m)),
          SeenBefore(fields, k))
  }

  /** Nothing of field i has been read: its slot is at its default, and its union is not set if the field will be. */
  ghost predicate Blank(fields: seq<Field>, m: Message, i: nat, s: State)
    requires i < |fields| <= |m.slots|
  {
    && |s.m.slots| == |fields| && s.m.slots[i] == DefaultSlot(fields[i])
    && (fields[i].htype.OneOf? && Present(fields[i], m, i) != [] ==> fields[i].htype.union !in s.m.unions)
  }

  /** Reading field i: its slot or its union changes, and a required field is seen. */
  function WithField(fields: seq<Field>, m: Message, i: nat, s: State): (r: State)
    requires i < |fields| <= |m.slots| && |s.m.slots| == |fields|
    ensures |r.m.slots| == |fields|
  {
    var f := fields[i];
    State(Message(s.m.slots[i := CanonicalSlot(f, m, i)],
                  if f.htype.OneOf? && Present(f, m, i) != []
                  then s.m.unions[f.htype.union := Choice(f.tag, CanonicalPresent(f, m, i)[0])] else s.m.unions),
          Seen(fields, i, s.seen))
  }

  /** The next field is blank. */
  lemma NextIsBlank(fields: seq<Field>, m: Message, i: nat)
    requires IsDescriptor(fields) && IsMessage(fields, m) && i < |fields| && IsMember(fields[i], m, i)
    ensures Blank(fields, m, i, Partial(fields, m, i))
  {
    DefaultSlotAt(fields, i);
    if fields[i].htype.OneOf? && Present(fields[i], m, i) != [] {
      UnionIsFree(fields, m, i);
    }
  }

  /** One field more. */
  lemma PartialStep(fields: seq<Field>, m: Message, i: nat)
    requires i < |fields| <= |m.slots|
    ensures Partial(fields, m, i + 1) == WithField(fields, m, i, Partial(fields, m, i))
  {
    var more := fields[..i + 1];
    assert more[..|more| - 1] == fields[..i] && more[|more| - 1] == fields[i];
  }

  lemma OneItem(l: LType, v: Datum)
    ensures CanonicalItems(l, [v]) == [CanonicalValue(l, v)] && (ItemsTerminate(l, [v]) <==> Terminates(l, v))
  {
    assert [v][..0] == [];
    assert CanonicalItems(l, [v][..0]) == [];
    assert ItemsTerminate(l, [v][..0]);
  }

  /** Whatever a union holds, a member among the first k fields holds. */
  ghost predicate HeldBy(fields: seq<Field>, m: Message, k: nat, u: nat, c: Choice)
    requires k <= |fields|
  {
    u in m.unions && exists j :: 0 <= j < k && fields[j].htype == OneOf(u) && fields[j].tag == m.unions[u].tag == c.tag
                                 && c.v == CanonicalValue(fields[j].ltype, m.unions[u].v)
  }

  lemma {:induction false} UnionsAreHeld(fields: seq<Field>, m: Message, k: nat, u: nat)
    requires k <= |fields| <= |m.slots| && IsStruct(fields, m) && u in CanonicalUnions(fields[..k], m)
    ensures HeldBy(fields, m, k, u, CanonicalUnions(fields[..k], m)[u])
    decreases k
  {
    if k > 0 {
      var some, f := fields[..k], fields[k - 1];
      assert some[..|some| - 1] == fields[..k - 1] && some[|some| - 1] == f;
      FieldsStep(fields, m, k - 1);
      var vs := CanonicalPresent(f, m, k - 1);
      if f.htype == OneOf(u) && vs != [] {
        OneItem(f.ltype, m.unions[u].v);
        assert Present(f, m, k - 1) == [m.unions[u].v];
      } else {
        UnionsAreHeld(fields, m, k - 1, u);
      }
    }
  }

  lemma {:induction false} RequiredAreSeen(fields: seq<Field>, k: nat, j: nat)
    requires k <= |fields| && j < RequiredBefore(fields, k) && j < MAX_REQUIRED_FIELDS
    ensures j in SeenBefore(fields, k)
  {
    if k > 0 && j < RequiredBefore(fields, k - 1) {
      RequiredAreSeen(fields, k - 1, j);
    }
  }

  // ---------------------------------------------------------------- the proof

  /** What an encoding of one value reads as, unless a string in it has no terminator. */
  lemma {:induction false} ValueIsRead(l: LType, v: Datum, rest: Bytes, held: Datum)
    requires IsFieldType(l) && HasType(l, v) && ValueFits(l, v) && |ValueBytes(l, v)| < TWO_32
    requires l.LSubmessage? ==> held == VMessage(DefaultMessage(l.fields))
    ensures ReadValue(l, ValueBytes(l, v) + rest, held)
         == if Terminates(l, v) then Some((CanonicalValue(l, v), rest)) else None
    decreases l, 0
  {
    if IsPackable(l) {
      NumberIsRead(l, v, rest);
    } else if l.LSubmessage? {
      StringIsRead(FieldsBytes(l.fields, v.m), rest);
      MessageIsRead(l.fields, v.m);
    } else {
      StringsAreRead(l, v, rest, held);
    }
  }

  lemma {:induction false} MessageIsRead(fields: seq<Field>, m: Message)
    requires IsDescriptor(fields) && IsMessage(fields, m) && AllFit(fields, m) && |FieldsBytes(fields, m)| < TWO_32
    ensures ReadMessage(fields, FieldsBytes(fields, m), DefaultMessage(fields))
         == if AllTerminate(fields, m) then Some(Canonical(fields, m)) else None
    decreases fields, 1
  {
    FieldsAreRead(fields, m, |fields|, []);
    assert fields[..|fields|] == fields && FieldsBytes(fields, m) + [] == FieldsBytes(fields, m);
    assert fields[..0] == [];
    assert Partial(fields, m, 0) == State(DefaultMessage(fields), {});
    assert Partial(fields, m, |fields|).m == Canonical(fields, m);
    var seen := Partial(fields, m, |fields|).seen;
    forall k | 0 <= k < Smaller(RequiredBefore(fields, |fields|), MAX_REQUIRED_FIELDS)
      ensures k in seen
    {
      RequiredAreSeen(fields, |fields|, k);
    }
  }

  lemma {:induction false} FieldsAreRead(fields: seq<Field>, m: Message, k: nat, rest: Bytes)
    requires IsDescriptor(fields) && IsMessage(fields, m) && AllFit(fields, m) && |FieldsBytes(fields, m)| < TWO_32
    requires k <= |fields|
    ensures ReadFields(fields, FieldsBytes(fields[..k], m) + rest, Partial(fields, m, 0))
         == if AllTerminate(fields[..k], m) then ReadFields(fields, rest, Partial(fields, m, k)) else None
    decreases fields, 0, k
  {
    if k == 0 {
      assert FieldsBytes(fields[..0], m) + rest == rest;
    } else {
      FieldsStep(fields, m, k - 1);
      var bytes := FieldBytes(fields[k - 1], m, k - 1);
      Slices.Associates(FieldsBytes(fields[..k - 1], m), bytes, rest);
      FieldsAreRead(fields, m, k - 1, bytes + rest);
      NextIsBlank(fields, m, k - 1);
      PartialStep(fields, m, k - 1);
      FieldIsRead(fields, m, k - 1, rest, Partial(fields, m, k - 1));
      var some := fields[..k];
      assert some[..|some| - 1] == fields[..k - 1] && some[|some| - 1] == fields[k - 1];
    }
  }

  /** The bytes of a field, wherever they come, as long as nothing of it has been read. */
  lemma {:induction false} FieldIsRead(fields: seq<Field>, m: Message, i: nat, rest: Bytes, s: State)
    requires IsDescriptor(fields) && IsMessage(fields, m) && i < |fields| && Blank(fields, m, i, s)
    requires FieldFits(fields[i], m, i) && |FieldBytes(fields[i], m, i)| < TWO_32
    ensures ReadFields(fields, FieldBytes(fields[i], m, i) + rest, s)
         == if FieldTerminates(fields[i], m, i) then ReadFields(fields, rest, WithField(fields, m, i, s)) else None
    decreases fields[i], 3
  {
    FieldsStep(fields, m, i);
    if Present(fields[i], m, i) == [] {
      NoneIsRead(fields, m, i, rest, s);
    } else if !fields[i].htype.Repeated? {
      OneIsRead(fields, m, i, rest, s);
    } else if IsPackable(fields[i].ltype) {
      ArrayIsRead(fields, m, i, rest, s);
    } else {
      RepeatedIsRead(fields, m, i, rest, s);
    }
  }

  lemma {:induction false} RepeatedIsRead(fields: seq<Field>, m: Message, i: nat, rest: Bytes, s: State)
    requires IsDescriptor(fields) && IsMessage(fields, m) && i < |fields| && IsMember(fields[i], m, i)
    requires Blank(fields, m, i, s) && fields[i].htype.Repeated? && !IsPackable(fields[i].ltype)
    requires FieldFits(fields[i], m, i) && |FieldBytes(fields[i], m, i)| < TWO_32
    ensures ReadFields(fields, FieldBytes(fields[i], m, i) + rest, s)
         == if FieldTerminates(fields[i], m, i) then ReadFields(fields, rest, WithField(fields, m, i, s)) else None
    decreases fields[i], 2
  {
    var vs := Present(fields[i], m, i);
    ItemsAreRead(fields, m, i, |vs|, rest, s);
    AllItemsRead(fields, m, i, s);
    assert vs[..|vs|] == vs;
  }

  lemma NoneIsRead(fields: seq<Field>, m: Message, i: nat, rest: Bytes, s: State)
    requires IsDescriptor(fields) && IsMessage(fields, m) && i < |fields| && IsMember(fields[i], m, i)
    requires Blank(fields, m, i, s) && Present(fields[i], m, i) == []
    ensures FieldBytes(fields[i], m, i) + rest == rest && FieldTerminates(fields[i], m, i)
    ensures WithField(fields, m, i, s) == s
  {
    NonePresent(fields[i], m, i);
    assert CanonicalSlot(fields[i], m, i) == DefaultSlot(fields[i]);
    assert s.m.slots[i := s.m.slots[i]] == s.m.slots;
  }

  lemma {:induction false} OneIsRead(fields: seq<Field>, m: Message, i: nat, rest: Bytes, s: State)
    requires IsDescriptor(fields) && IsMessage(fields, m) && i < |fields| && IsMember(fields[i], m, i)
    requires Blank(fields, m, i, s) && Present(fields[i], m, i) != [] && !fields[i].htype.Repeated?
    requires FieldFits(fields[i], m, i) && |FieldBytes(fields[i], m, i)| < TWO_32
    ensures ReadFields(fields, FieldBytes(fields[i], m, i) + rest, s)
         == if FieldTerminates(fields[i], m, i) then ReadFields(fields, rest, WithField(fields, m, i, s)) else None
    decreases fields[i], 2
  {
    var f := fields[i];
    var v := Present(f, m, i)[0];
    assert Present(f, m, i) == [v];
    OnePresent(f, m, i, v);
    var data := ValueBytes(f.ltype, v) + rest;
    Slices.Associates(TagBytes(WireTypeOf(f.ltype), f.tag), ValueBytes(f.ltype, v), rest);
    TagLeadsToField(fields, i, WireTypeOf(f.ltype), data, s);
    OneMemberIsRead(fields, m, i, v, rest, s);
  }

  lemma {:induction false} OneMemberIsRead(fields: seq<Field>, m: Message, i: nat, v: Datum, rest: Bytes, s: State)
    requires IsDescriptor(fields) && IsMessage(fields, m) && i < |fields| && IsMember(fields[i], m, i)
    requires Blank(fields, m, i, s) && Present(fields[i], m, i) == [v] && !fields[i].htype.Repeated?
    requires HasType(fields[i].ltype, v) && ValueFits(fields[i].ltype, v) && |ValueBytes(fields[i].ltype, v)| < TWO_32
    ensures ReadField(fields[i], i, WireTypeOf(fields[i].ltype), ValueBytes(fields[i].ltype, v) + rest, s.m)
         == if FieldTerminates(fields[i], m, i) then Some((WithField(fields, m, i, s).m, rest)) else None
    decreases fields[i], 1
  {
    OneItem(fields[i].ltype, v);
    if fields[i].htype.OneOf? {
      OneUnionIsRead(fields, m, i, v, rest, s);
    } else {
      OneSlotIsRead(fields, m, i, v, rest, s);
    }
  }

  /** A member of its own. */
  lemma {:induction false} OneSlotIsRead(fields: seq<Field>, m: Message, i: nat, v: Datum, rest: Bytes, s: State)
    requires IsDescriptor(fields) && IsMessage(fields, m) && i < |fields| && IsMember(fields[i], m, i)
    requires Blank(fields, m, i, s)
    requires Present(fields[i], m, i) == [v] && (fields[i].htype.Required? || fields[i].htype.Optional?)
    requires HasType(fields[i].ltype, v) && ValueFits(fields[i].ltype, v) && |ValueBytes(fields[i].ltype, v)| < TWO_32
    requires CanonicalPresent(fields[i], m, i) == [CanonicalValue(fields[i].ltype, v)]
    ensures ReadField(fields[i], i, WireTypeOf(fields[i].ltype), ValueBytes(fields[i].ltype, v) + rest, s.m)
         == if Terminates(fields[i].ltype, v) then Some((WithField(fields, m, i, s).m, rest)) else None
    decreases fields[i], 0
  {
    var l := fields[i].ltype;
    assert s.m.slots[i] == DefaultSlot(fields[i]);
    ValueIsRead(l, v, rest, s.m.slots[i].v);
    assert SetSlot(s.m, i, Updated(s.m.slots[i], CanonicalValue(l, v))) == WithField(fields, m, i, s).m;
    SlotRead(fields[i], i, WireTypeOf(l), ValueBytes(l, v) + rest, s.m);
  }

  /** Reading into a slot of its own, without its descriptor. */
  lemma SlotRead(f: Field, i: nat, wire: WireType, data: Bytes, m: Message)
    requires i < |m.slots| && (m.slots[i].Single? || m.slots[i].WithHas?)
    ensures ReadField(f, i, wire, data, m)
         == match ReadValue(f.ltype, data, m.slots[i].v)
            case None => None
            case Some((v, rest)) => Some((SetSlot(m, i, Updated(m.slots[i], v)), rest))
  {
  }

  /** A member of a union. */
  lemma {:induction false} OneUnionIsRead(fields: seq<Field>, m: Message, i: nat, v: Datum, rest: Bytes, s: State)
    requires IsDescriptor(fields) && IsMessage(fields, m) && i < |fields| && IsMember(fields[i], m, i)
    requires Blank(fields, m, i, s) && Present(fields[i], m, i) == [v] && fields[i].htype.OneOf?
    requires HasType(fields[i].ltype, v) && ValueFits(fields[i].ltype, v) && |ValueBytes(fields[i].ltype, v)| < TWO_32
    requires CanonicalPresent(fields[i], m, i) == [CanonicalValue(fields[i].ltype, v)]
    ensures ReadField(fields[i], i, WireTypeOf(fields[i].ltype), ValueBytes(fields[i].ltype, v) + rest, s.m)
         == if Terminates(fields[i].ltype, v) then Some((WithField(fields, m, i, s).m, rest)) else None
    decreases fields[i], 0
  {
    var f, l := fields[i], fields[i].ltype;
    ValueIsRead(l, v, rest, ItemDefault(f));
    assert s.m.slots[i := s.m.slots[i]] == s.m.slots;
    assert s.m.(unions := s.m.unions[f.htype.union := Choice(f.tag, CanonicalValue(l, v))])
           == WithField(fields, m, i, s).m;
    UnionRead(f, i, WireTypeOf(l), ValueBytes(l, v) + rest, s.m);
  }

  lemma UnionRead(f: Field, i: nat, wire: WireType, data: Bytes, m: Message)
    requires i < |m.slots| && m.slots[i].InUnion? && f.htype.OneOf? && f.htype.union !in m.unions
    ensures ReadField(f, i, wire, data, m)
         == match ReadValue(f.ltype, data, ItemDefault(f))
            case None => None
            case Some((v, rest)) => Some((m.(unions := m.unions[f.htype.union := Choice(f.tag, v)]), rest))
  {
  }

  lemma ItemRead(f: Field, i: nat, wire: WireType, data: Bytes, m: Message)
    requires i < |m.slots| && m.slots[i].Items? && f.htype.Repeated? && !IsPackable(f.ltype)
    requires |m.slots[i].items| < f.htype.arraySize
    ensures ReadField(f, i, wire, data, m)
         == match ReadValue(f.ltype, data, ItemDefault(f))
            case None => None
            case Some((v, rest)) => Some((SetSlot(m, i, Items(m.slots[i].items + [v])), rest))
  {
  }

  /** A union that has been set before was set by another member. */
  lemma UnionIsFree(fields: seq<Field>, m: Message, i: nat)
    requires IsDescriptor(fields) && IsMessage(fields, m) && i < |fields| && fields[i].htype.OneOf?
    requires Present(fields[i], m, i) != [] && IsMember(fields[i], m, i)
    ensures fields[i].htype.union !in Partial(fields, m, i).m.unions
  {
    var u := fields[i].htype.union;
    if u in CanonicalUnions(fields[..i], m) {
      UnionsAreHeld(fields, m, i, u);
    }
  }

  lemma {:induction false} NumbersAreCanonical(l: LType, items: seq<Datum>)
    requires IsPackable(l)
    ensures CanonicalItems(l, items) == items && ItemsTerminate(l, items)
    decreases |items|
  {
    if items != [] {
      NumbersAreCanonical(l, items[..|items| - 1]);
      assert items == items[..|items| - 1] + [items[|items| - 1]];
    }
  }

  lemma ArrayIsRead(fields: seq<Field>, m: Message, i: nat, rest: Bytes, s: State)
    requires IsDescriptor(fields) && IsMessage(fields, m) && i < |fields| && IsMember(fields[i], m, i)
    requires Blank(fields, m, i, s)
    requires Present(fields[i], m, i) != [] && fields[i].htype.Repeated? && IsPackable(fields[i].ltype)
    requires FieldFits(fields[i], m, i) && |FieldBytes(fields[i], m, i)| < TWO_32
    ensures ReadFields(fields, FieldBytes(fields[i], m, i) + rest, s)
         == if FieldTerminates(fields[i], m, i) then ReadFields(fields, rest, WithField(fields, m, i, s)) else None
  {
    var f, items := fields[i], Present(fields[i], m, i);
    var packed := PackedBytes(f.ltype, items);
    assert s.m.slots[i] == DefaultSlot(f) == Items([]);
    NumbersAreCanonical(f.ltype, items);
    Slices.Associates(TagBytes(WireString, f.tag), Prefixed(packed), rest);
    TagLeadsToField(fields, i, WireString, Prefixed(packed) + rest, s);
    StringIsRead(packed, rest);
    PackedIsRead(f.ltype, f.htype.arraySize, items, |items|, []);
    assert items[..|items|] == items && packed + [] == packed;
    PackedFieldRead(f, i, Prefixed(packed) + rest, s.m);
    assert CanonicalSlot(f, m, i) == Items(items);
    assert SetSlot(s.m, i, Items(items)) == WithField(fields, m, i, s).m;
  }

  /** Reading a packed array into its slot. */
  lemma PackedFieldRead(f: Field, i: nat, data: Bytes, m: Message)
    requires i < |m.slots| && m.slots[i].Items? && f.htype.Repeated? && IsPackable(f.ltype)
    ensures ReadField(f, i, WireString, data, m)
         == match ReadString(data)
            case None => None
            case Some((s, rest)) =>
              match ReadPacked(f.ltype, f.htype.arraySize, s, m.slots[i].items)
              case None => None
              case Some(all) => Some((SetSlot(m, i, Items(all)), rest))
  {
  }

  /** The first k items of field i are read. */
  function WithItems(fields: seq<Field>, m: Message, i: nat, k: nat, s: State): (r: State)
    requires i < |fields| <= |m.slots| && k <= |Present(fields[i], m, i)| && |s.m.slots| == |fields|
    ensures |r.m.slots| == |fields|
  {
    s.(m := SetSlot(s.m, i, Items(CanonicalItems(fields[i].ltype, Present(fields[i], m, i)[..k]))))
  }

  lemma AllItemsRead(fields: seq<Field>, m: Message, i: nat, s: State)
    requires i < |fields| <= |m.slots| && fields[i].htype.Repeated? && Blank(fields, m, i, s)
    ensures WithItems(fields, m, i, 0, s) == s
    ensures WithItems(fields, m, i, |Present(fields[i], m, i)|, s) == WithField(fields, m, i, s)
  {
    var vs := Present(fields[i], m, i);
    assert s.m.slots[i] == DefaultSlot(fields[i]) == Items([]);
    assert vs[..0] == [] && vs[..|vs|] == vs;
    assert CanonicalSlot(fields[i], m, i) == Items(CanonicalItems(fields[i].ltype, vs));
    assert WithItems(fields, m, i, |vs|, s).m.slots == WithField(fields, m, i, s).m.slots;
    assert s.m.slots[i := s.m.slots[i]] == s.m.slots;
  }

  lemma {:induction false} ItemsAreRead(fields: seq<Field>, m: Message, i: nat, k: nat, rest: Bytes, s: State)
    requires IsDescriptor(fields) && IsMessage(fields, m) && i < |fields| && IsMember(fields[i], m, i)
    requires fields[i].htype.Repeated? && !IsPackable(fields[i].ltype) && k <= |Present(fields[i], m, i)|
    requires FieldFits(fields[i], m, i) && |FieldBytes(fields[i], m, i)| < TWO_32 && |s.m.slots| == |fields|
    ensures ReadFields(fields, UnpackedBytes(fields[i], Present(fields[i], m, i)[..k]) + rest,
                       WithItems(fields, m, i, 0, s))
         == if ItemsTerminate(fields[i].ltype, Present(fields[i], m, i)[..k])
            then ReadFields(fields, rest, WithItems(fields, m, i, k, s)) else None
    decreases fields[i], 1, k
  {
    var f, vs := fields[i], Present(fields[i], m, i);
    if k == 0 {
      assert UnpackedBytes(f, vs[..0]) + rest == rest && vs[..0] == [];
    } else {
      UnpackedStep(f, vs, k - 1);
      var tagged := TaggedBytes(f, vs[k - 1]);
      Slices.Associates(UnpackedBytes(f, vs[..k - 1]), tagged, rest);
      ItemsAreRead(fields, m, i, k - 1, tagged + rest, s);
      ItemIsRead(fields, m, i, k - 1, rest, s);
      var some := vs[..k];
      assert some[..|some| - 1] == vs[..k - 1] && some[|some| - 1] == vs[k - 1];
    }
  }

  lemma {:induction false} ItemIsRead(fields: seq<Field>, m: Message, i: nat, k: nat, rest: Bytes, s: State)
    requires IsDescriptor(fields) && IsMessage(fields, m) && i < |fields| && IsMember(fields[i], m, i)
    requires fields[i].htype.Repeated? && !IsPackable(fields[i].ltype) && k < |Present(fields[i], m, i)|
    requires FieldFits(fields[i], m, i) && |TaggedBytes(fields[i], Present(fields[i], m, i)[k])| < TWO_32
    requires |s.m.slots| == |fields|
    ensures ReadFields(fields, TaggedBytes(fields[i], Present(fields[i], m, i)[k]) + rest,
                       WithItems(fields, m, i, k, s))
         == if Terminates(fields[i].ltype, Present(fields[i], m, i)[k])
            then ReadFields(fields, rest, WithItems(fields, m, i, k + 1, s)) else None
    decreases fields[i], 0, 1
  {
    var f, vs := fields[i], Present(fields[i], m, i);
    var v := vs[k];
    Slices.Associates(TagBytes(WireTypeOf(f.ltype), f.tag), ValueBytes(f.ltype, v), rest);
    TagLeadsToField(fields, i, WireTypeOf(f.ltype), ValueBytes(f.ltype, v) + rest, WithItems(fields, m, i, k, s));
    ItemMemberIsRead(fields, m, i, k, rest, s);
  }

  lemma {:induction false} ItemMemberIsRead(fields: seq<Field>, m: Message, i: nat, k: nat, rest: Bytes, s: State)
    requires IsDescriptor(fields) && IsMessage(fields, m) && i < |fields| && IsMember(fields[i], m, i)
    requires fields[i].htype.Repeated? && !IsPackable(fields[i].ltype) && k < |Present(fields[i], m, i)|
    requires FieldFits(fields[i], m, i) && |TaggedBytes(fields[i], Present(fields[i], m, i)[k])| < TWO_32
    requires |s.m.slots| == |fields|
    ensures ReadField(fields[i], i, WireTypeOf(fields[i].ltype),
                      ValueBytes(fields[i].ltype, Present(fields[i], m, i)[k]) + rest,
                      WithItems(fields, m, i, k, s).m)
         == if Terminates(fields[i].ltype, Present(fields[i], m, i)[k])
            then Some((WithItems(fields, m, i, k + 1, s).m, rest)) else None
    decreases fields[i], 0, 0
  {
    var f, vs := fields[i], Present(fields[i], m, i);
    var v, sm := vs[k], WithItems(fields, m, i, k, s).m;
    assert HasType(f.ltype, v) && ValueFits(f.ltype, v);
    ValueIsRead(f.ltype, v, rest, ItemDefault(f));
    OneMoreItem(f.ltype, vs, k);
    ItemRead(f, i, WireTypeOf(f.ltype), ValueBytes(f.ltype, v) + rest, sm);
    assert SetSlot(sm, i, Items(sm.slots[i].items + [CanonicalValue(f.ltype, v)]))
        == WithItems(fields, m, i, k + 1, s).m;
  }

  lemma OneMoreItem(l: LType, vs: seq<Datum>, k: nat)
    requires k < |vs|
    ensures CanonicalItems(l, vs[..k + 1]) == CanonicalItems(l, vs[..k]) + [CanonicalValue(l, vs[k])]
  {
    var more := vs[..k + 1];
    assert more[..|more| - 1] == vs[..k] && more[|more| - 1] == vs[k];
  }

  /**
   Decoding an encoded message gives it back in canonical form, unless a string that is present fills its member: then
   the decoder refuses.
   */
  lemma RoundTrip(fields: seq<Field>, m: Message)
    requires IsDescriptor(fields) && IsMessage(fields, m) && AllFit(fields, m) && |FieldsBytes(fields, m)| < TWO_32
    ensures Decode(fields, FieldsBytes(fields, m))
         == if AllTerminate(fields, m) then Some(Canonical(fields, m)) else None
  {
    MessageIsRead(fields, m);
  }
}
