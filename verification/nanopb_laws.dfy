/**
 Laws of decoding, over any bytes. What is decoded from two strings of fields, one after the other, is what decoding the
 second adds to what the first gave; so unknown fields change nothing, the last of several values stays, submessages
 merge, and an array of numbers may be sent packed or not.
 */
module NanopbLaws {
  import opened Coding
  import opened NanopbIterator
  import opened NanopbMessages
  import opened NanopbParsing
  import opened NanopbRoundTrip
  import opened NanopbWire
  import opened Reads
  import Slices

  // ---------------------------------------------------------------- what follows is not looked at

  lemma {:induction false} VarintStops(data: Bytes, more: Bytes, n: nat)
    requires ParseVarint(data, n).Some?
    ensures ParseVarint(data + more, n) == ParseVarint(data, n)
  {
    assert (data + more)[0] == data[0];
    if data[0] >= 128 {
      assert (data + more)[1..] == data[1..] + more;
      VarintStops(data[1..], more, n - 1);
    }
  }

  lemma {:induction false} Varint32Stops(data: Bytes, more: Bytes, n: nat, result: Uint32)
    requires Varint32Tail(data, n, result).Some?
    ensures var (v, rest) := Varint32Tail(data, n, result).value;
            Varint32Tail(data + more, n, result) == Some((v, rest + more))
    decreases 10 - n
  {
    assert (data + more)[0] == data[0] && (data + more)[1..] == data[1..] + more;
    if data[0] >= 128 {
      var next := if n >= 5 then result else (result + Shifted((data[0] % 128) as nat, n)) % TWO_32;
      Varint32Stops(data[1..], more, n + 1, next);
    }
  }

  lemma {:induction false} SkipVarintStops(data: Bytes, more: Bytes)
    requires SkipVarint(data).Some?
    ensures SkipVarint(data + more) == Some(SkipVarint(data).value + more)
  {
    assert (data + more)[0] == data[0] && (data + more)[1..] == data[1..] + more;
    if data[0] >= 128 {
      SkipVarintStops(data[1..], more);
    }
  }

  lemma TailStays(data: Bytes, more: Bytes, n: nat)
    requires n <= |data|
    ensures (data + more)[n..] == data[n..] + more && (data + more)[..n] == data[..n]
  {
  }

  lemma VarintGoesOn(data: Bytes, more: Bytes)
    requires ReadVarint(data).Some?
    ensures ReadVarint(data + more) == Some((ReadVarint(data).value.0, ReadVarint(data).value.1 + more))
  {
    VarintStops(data, more, 10);
    TailStays(data, more, ParseVarint(data, 10).value.1);
  }

  lemma FixedStops(data: Bytes, more: Bytes)
    ensures |data| >= 4 ==> DecodeFixed32(data + more) == DecodeFixed32(data)
    ensures |data| >= 8 ==> DecodeFixed64(data + more) == DecodeFixed64(data)
  {
    if |data| >= 4 {
      TailStays(data, more, 4);
    }
  }

  lemma NumberStops(l: LType, data: Bytes, more: Bytes, v: Datum, rest: Bytes)
    requires IsPackable(l) && ReadNumber(l, data) == Some((v, rest))
    ensures ReadNumber(l, data + more) == Some((v, rest + more))
  {
    match l
    case LBool => Varint32Stops(data, more, 0, 0);
    case LFixed32 =>
      FixedStops(data, more);
      TailStays(data, more, 4);
    case LFixed64 =>
      FixedStops(data, more);
      TailStays(data, more, 8);
    case _ => VarintGoesOn(data, more);
  }

  lemma StringStops(data: Bytes, more: Bytes, s: Bytes, rest: Bytes)
    requires ReadString(data) == Some((s, rest))
    ensures ReadString(data + more) == Some((s, rest + more))
  {
    Varint32Stops(data, more, 0, 0);
    var (n, after) := ReadVarint32(data).value;
    TailStays(after, more, n);
  }

  lemma ValueStops(l: LType, data: Bytes, more: Bytes, held: Datum, v: Datum, rest: Bytes)
    requires ReadValue(l, data, held) == Some((v, rest))
    ensures ReadValue(l, data + more, held) == Some((v, rest + more))
  {
    if IsPackable(l) {
      NumberStops(l, data, more, v, rest);
    } else {
      var (s, after) := ReadString(data).value;
      StringStops(data, more, s, after);
    }
  }

  lemma FieldStops(f: Field, i: nat, wire: WireType, data: Bytes, more: Bytes, m: Message, m': Message, rest: Bytes)
    requires i < |m.slots| && ReadField(f, i, wire, data, m) == Some((m', rest))
    ensures ReadField(f, i, wire, data + more, m) == Some((m', rest + more))
  {
    match m.slots[i]
    case Items(items) =>
      if wire == WireString && IsPackable(f.ltype) {
        var (s, after) := ReadString(data).value;
        StringStops(data, more, s, after);
      } else {
        var (v, after) := ReadValue(f.ltype, data, ItemDefault(f)).value;
        ValueStops(f.ltype, data, more, ItemDefault(f), v, after);
      }
    case InUnion =>
      var u := f.htype.union;
      var held := if u in m.unions && m.unions[u].tag == f.tag then m.unions[u].v else ItemDefault(f);
      var (v, after) := ReadValue(f.ltype, data, held).value;
      ValueStops(f.ltype, data, more, held, v, after);
    case _ =>
      var (v, after) := ReadValue(f.ltype, data, m.slots[i].v).value;
      ValueStops(f.ltype, data, more, m.slots[i].v, v, after);
  }

  lemma SkipStops(w: WireType, data: Bytes, more: Bytes, rest: Bytes)
    requires SkipField(w, data) == Some(rest)
    ensures SkipField(w, data + more) == Some(rest + more)
  {
    match w
    case WireVarint => SkipVarintStops(data, more);
    case Wire64Bit => TailStays(data, more, 8);
    case WireString =>
      Varint32Stops(data, more, 0, 0);
      var (n, after) := ReadVarint32(data).value;
      TailStays(after, more, n);
    case Wire32Bit => TailStays(data, more, 4);
    case WireOther =>
  }

  lemma TagStops(data: Bytes, more: Bytes, wire: WireType, tag: nat, rest: Bytes)
    requires ReadTag(data) == Tag(wire, tag, rest)
    ensures ReadTag(data + more) == Tag(wire, tag, rest + more)
  {
    Varint32Stops(data, more, 0, 0);
  }

  lemma TaggedStops(fields: seq<Field>, wire: WireType, tag: nat, data: Bytes, more: Bytes, s: State, s': State,
                    rest: Bytes)
    requires |s.m.slots| == |fields| && ReadTagged(fields, wire, tag, data, s) == Some((s', rest))
    ensures ReadTagged(fields, wire, tag, data + more, s) == Some((s', rest + more))
  {
    if fields == [] && tag == 0 {
      Varint32Stops(data, more, 0, 0);
    } else if HasTag(fields, tag) {
      var i := IndexOf(fields, tag);
      var (m, after) := ReadField(fields[i], i, wire, data, s.m).value;
      FieldStops(fields[i], i, wire, data, more, s.m, m, after);
    } else {
      SkipStops(wire, data, more, rest);
    }
  }

  // ---------------------------------------------------------------- one string of fields after another

  /** The bytes are whole fields and nothing else: no error, and no zero tag that would end the message early. */
  predicate AreFields(fields: seq<Field>, data: Bytes, s: State)
    requires |s.m.slots| == |fields|
    decreases |data|
  {
    data == [] ||
    match ReadTag(data)
    case EndOfMessage => false
    case BadTag => false
    case Tag(wire, tag, rest) =>
      match ReadTagged(fields, wire, tag, rest, s)
      case None => false
      case Some((s', rest')) => AreFields(fields, rest', s')
  }

  /** What has been read after them. */
  function AfterFields(fields: seq<Field>, data: Bytes, s: State): (r: State)
    requires |s.m.slots| == |fields| && AreFields(fields, data, s)
    ensures |r.m.slots| == |fields|
    ensures ReadFields(fields, data, s) == Some(r)
    decreases |data|
  {
    if data == [] then s
    else
      var t := ReadTag(data);
      var r := ReadTagged(fields, t.wire, t.tag, t.rest, s).value;
      AfterFields(fields, r.1, r.0)
  }

  /** Decoding one string of fields and another after it: the second goes on from where the first has got to. */
  lemma {:induction false} Concatenation(fields: seq<Field>, a: Bytes, b: Bytes, s: State)
    requires |s.m.slots| == |fields| && AreFields(fields, a, s)
    ensures ReadFields(fields, a + b, s) == ReadFields(fields, b, AfterFields(fields, a, s))
    ensures AreFields(fields, a + b, s) <==> AreFields(fields, b, AfterFields(fields, a, s))
    decreases |a|
  {
    if a == [] {
      assert a + b == b;
    } else {
      var t := ReadTag(a);
      var (s', rest) := ReadTagged(fields, t.wire, t.tag, t.rest, s).value;
      TagStops(a, b, t.wire, t.tag, t.rest);
      TaggedStops(fields, t.wire, t.tag, t.rest, b, s, s', rest);
      Concatenation(fields, rest, b, s');
    }
  }

  // ---------------------------------------------------------------- fields that the descriptor does not have

  /** What may follow a tag with this wire type. */
  ghost predicate IsPayload(wire: WireType, payload: Bytes) {
    match wire
    case WireVarint => |payload| > 0 && payload[|payload| - 1] < 128
                       && forall k | 0 <= k < |payload| - 1 :: payload[k] >= 128
    case Wire64Bit => |payload| == 8
    case WireString => exists s: Bytes :: |s| < TWO_32 && payload == Prefixed(s)
    case Wire32Bit => |payload| == 4
    case WireOther => false
  }

  lemma {:induction false} VarintIsSkipped(payload: Bytes, rest: Bytes)
    requires IsPayload(WireVarint, payload)
    ensures SkipVarint(payload + rest) == Some(rest)
  {
    assert (payload + rest)[0] == payload[0] && (payload + rest)[1..] == payload[1..] + rest;
    if |payload| > 1 {
      VarintIsSkipped(payload[1..], rest);
    } else {
      assert payload[1..] + rest == rest;
    }
  }

  lemma PayloadIsSkipped(wire: WireType, payload: Bytes, rest: Bytes)
    requires IsPayload(wire, payload)
    ensures SkipField(wire, payload + rest) == Some(rest)
  {
    match wire
    case WireVarint => VarintIsSkipped(payload, rest);
    case WireString =>
      var s: Bytes :| |s| < TWO_32 && payload == Prefixed(s);
      Slices.Associates(Varint(|s|), s, rest);
      Varint32IsRead(|s|, s + rest);
      Slices.DropFront(s, rest);
    case _ => Slices.DropFront(payload, rest);
  }

  /** A field of a newer version of the message: whatever it holds, it is passed over. */
  lemma UnknownFieldIsSkipped(fields: seq<Field>, wire: WireType, tag: nat, payload: Bytes, rest: Bytes, s: State)
    requires |s.m.slots| == |fields| && 1 <= tag <= MAX_TAG && !HasTag(fields, tag) && IsPayload(wire, payload)
    ensures ReadFields(fields, (TagBytes(wire, tag) + payload) + rest, s) == ReadFields(fields, rest, s)
  {
    Slices.Associates(TagBytes(wire, tag), payload, rest);
    TagIsRead(wire, tag, payload + rest);
    PayloadIsSkipped(wire, payload, rest);
  }

  /** Groups, and the wire types that there are not, end the decoding. */
  lemma UnknownWireTypeIsRefused(fields: seq<Field>, w: nat, tag: nat, rest: Bytes, s: State)
    requires |s.m.slots| == |fields| && 1 <= tag <= MAX_TAG && !HasTag(fields, tag)
    requires w == 3 || w == 4 || w == 6 || w == 7
    ensures ReadFields(fields, Varint(tag * 8 + w) + rest, s) == None
  {
    OtherTagIsRead(w, tag, rest);
    assert SkipField(WireOther, rest) == None;
  }

  lemma OtherTagIsRead(w: nat, tag: nat, rest: Bytes)
    requires 1 <= tag <= MAX_TAG && (w == 3 || w == 4 || w == 6 || w == 7)
    ensures ReadTag(Varint(tag * 8 + w) + rest) == Tag(WireOther, tag, rest)
  {
    Varint32IsRead(tag * 8 + w, rest);
    TagDigits(tag, w);
  }

  /** Between any two fields. */
  lemma UnknownFieldsChangeNothing(fields: seq<Field>, wire: WireType, tag: nat, payload: Bytes, a: Bytes, b: Bytes,
                                   s: State)
    requires |s.m.slots| == |fields| && AreFields(fields, a, s)
    requires 1 <= tag <= MAX_TAG && !HasTag(fields, tag) && IsPayload(wire, payload)
    ensures ReadFields(fields, a + ((TagBytes(wire, tag) + payload) + b), s) == ReadFields(fields, a + b, s)
  {
    Concatenation(fields, a, (TagBytes(wire, tag) + payload) + b, s);
    Concatenation(fields, a, b, s);
    UnknownFieldIsSkipped(fields, wire, tag, payload, b, AfterFields(fields, a, s));
  }

  /** An unknown field after the first k fields of an encoded message. */
  lemma UnknownFieldInEncoding(fields: seq<Field>, m: Message, k: nat, wire: WireType, tag: nat, payload: Bytes)
    requires IsDescriptor(fields) && IsMessage(fields, m) && AllFit(fields, m) && |FieldsBytes(fields, m)| < TWO_32
    requires k <= |fields| && 1 <= tag <= MAX_TAG && !HasTag(fields, tag) && IsPayload(wire, payload)
    ensures var all, n := FieldsBytes(fields, m), |FieldsBytes(fields[..k], m)|;
            && n <= |all|
            && Decode(fields, all[..n] + ((TagBytes(wire, tag) + payload) + all[n..])) == Decode(fields, all)
  {
    var all, front := FieldsBytes(fields, m), FieldsBytes(fields[..k], m);
    FrontOfFields(fields, m, k);
    var rest := all[|front|..];
    var unknown := TagBytes(wire, tag) + payload;
    assert all == front + rest && all[..|front|] == front;
    FieldsAreRead(fields, m, k, unknown + rest);
    FieldsAreRead(fields, m, k, rest);
    UnknownFieldIsSkipped(fields, wire, tag, payload, rest, Partial(fields, m, k));
    assert fields[..0] == [];
    assert Partial(fields, m, 0) == State(DefaultMessage(fields), {});
  }

  lemma {:induction false} FrontOfFields(fields: seq<Field>, m: Message, k: nat)
    requires k <= |fields| <= |m.slots|
    ensures FieldsBytes(fields[..k], m) <= FieldsBytes(fields, m)
    decreases |fields|
  {
    if k == |fields| {
      assert fields[..k] == fields;
    } else {
      FrontOfFields(fields[..|fields| - 1], m, k);
      assert fields[..|fields| - 1][..k] == fields[..k];
    }
  }

  // ---------------------------------------------------------------- several values for one field

  /** A number, or a string that has room for its terminator: its encoding reads as it is, whatever is there before. */
  predicate IsScalar(l: LType, v: Datum) {
    !l.LSubmessage? && HasType(l, v) && ValueFits(l, v) && Terminates(l, v) && |ValueBytes(l, v)| < TWO_32
  }

  lemma ScalarIsRead(l: LType, v: Datum, rest: Bytes, held: Datum)
    requires IsScalar(l, v)
    ensures ReadValue(l, ValueBytes(l, v) + rest, held) == Some((v, rest))
  {
    if IsPackable(l) {
      NumberIsRead(l, v, rest);
    } else {
      StringsAreRead(l, v, rest, held);
    }
  }

  /** The slot holds one value. */
  predicate IsSingular(s: Slot) {
    s.Single? || s.WithHas?
  }

  /** A value replaces what is in its slot. */
  function Replaced(fields: seq<Field>, i: nat, v: Datum, s: State): (r: State)
    requires i < |fields| == |s.m.slots|
    ensures |r.m.slots| == |fields|
  {
    State(SetSlot(s.m, i, Updated(s.m.slots[i], v)), Seen(fields, i, s.seen))
  }

  lemma ValueReplaces(fields: seq<Field>, i: nat, v: Datum, rest: Bytes, s: State)
    requires IsDescriptor(fields) && i < |fields| == |s.m.slots| && IsSingular(s.m.slots[i])
    requires IsScalar(fields[i].ltype, v)
    ensures ReadFields(fields, TaggedBytes(fields[i], v) + rest, s)
         == ReadFields(fields, rest, Replaced(fields, i, v, s))
  {
    var f := fields[i];
    var tag, value := TagBytes(WireTypeOf(f.ltype), f.tag), ValueBytes(f.ltype, v);
    Slices.Associates(tag, value, rest);
    TagLeadsToField(fields, i, WireTypeOf(f.ltype), value + rest, s);
    ScalarIsRead(f.ltype, v, rest, s.m.slots[i].v);
    SlotRead(f, i, WireTypeOf(f.ltype), value + rest, s.m);
  }

  /** A field that is sent more than once: whatever was read for it earlier, the last value stays. */
  lemma LastValueStays(fields: seq<Field>, i: nat, v: Datum, a: Bytes, rest: Bytes, s: State)
    requires IsDescriptor(fields) && i < |fields| == |s.m.slots| && AreFields(fields, a, s)
    requires IsSingular(AfterFields(fields, a, s).m.slots[i]) && IsScalar(fields[i].ltype, v)
    ensures ReadFields(fields, a + (TaggedBytes(fields[i], v) + rest), s)
         == ReadFields(fields, rest, Replaced(fields, i, v, AfterFields(fields, a, s)))
  {
    Concatenation(fields, a, TaggedBytes(fields[i], v) + rest, s);
    ValueReplaces(fields, i, v, rest, AfterFields(fields, a, s));
  }

  /** Two values in a row are as good as the second alone. */
  lemma SecondValueReplacesFirst(fields: seq<Field>, i: nat, v: Datum, w: Datum, rest: Bytes, s: State)
    requires IsDescriptor(fields) && i < |fields| == |s.m.slots| && IsSingular(s.m.slots[i])
    requires IsScalar(fields[i].ltype, v) && IsScalar(fields[i].ltype, w)
    ensures ReadFields(fields, TaggedBytes(fields[i], v) + (TaggedBytes(fields[i], w) + rest), s)
         == ReadFields(fields, TaggedBytes(fields[i], w) + rest, s)
  {
    ValueReplaces(fields, i, v, TaggedBytes(fields[i], w) + rest, s);
    ValueReplaces(fields, i, w, rest, Replaced(fields, i, v, s));
    ValueReplaces(fields, i, w, rest, s);
    assert s.m.slots[i := Updated(s.m.slots[i], v)][i := Updated(Updated(s.m.slots[i], v), w)]
        == s.m.slots[i := Updated(s.m.slots[i], w)];
  }

  /** The members of a union: the last one sent is the one chosen. */
  lemma LastMemberIsChosen(fields: seq<Field>, i: nat, u: nat, v: Datum, rest: Bytes, s: State)
    requires IsDescriptor(fields) && i < |fields| == |s.m.slots| && s.m.slots[i].InUnion?
    requires fields[i].htype == OneOf(u) && IsScalar(fields[i].ltype, v)
    ensures ReadFields(fields, TaggedBytes(fields[i], v) + rest, s)
         == ReadFields(fields, rest, s.(m := s.m.(unions := s.m.unions[u := Choice(fields[i].tag, v)])))
  {
    var f := fields[i];
    var tag, value := TagBytes(WireTypeOf(f.ltype), f.tag), ValueBytes(f.ltype, v);
    Slices.Associates(tag, value, rest);
    TagLeadsToField(fields, i, WireTypeOf(f.ltype), value + rest, s);
    ScalarIsRead(f.ltype, v, rest, HeldInUnion(f, u, s.m));
    MemberRead(f, i, u, WireTypeOf(f.ltype), value + rest, s.m);
  }

  /** What a member of the union u is read onto. */
  function HeldInUnion(f: Field, u: nat, m: Message): Datum {
    if u in m.unions && m.unions[u].tag == f.tag then m.unions[u].v else ItemDefault(f)
  }

  lemma MemberRead(f: Field, i: nat, u: nat, wire: WireType, data: Bytes, m: Message)
    requires i < |m.slots| && m.slots[i].InUnion? && f.htype == OneOf(u)
    ensures ReadField(f, i, wire, data, m)
         == match ReadValue(f.ltype, data, HeldInUnion(f, u, m))
            case None => None
            case Some((v, rest)) => Some((m.(unions := m.unions[u := Choice(f.tag, v)]), rest))
  {
  }

  // ---------------------------------------------------------------- arrays of numbers, packed or not

  /** The items are added to those that are there, if there is room for all of them. */
  function WithNumbers(fields: seq<Field>, i: nat, items: seq<Datum>, s: State): (r: Option<State>)
    requires i < |fields| == |s.m.slots| && s.m.slots[i].Items? && fields[i].htype.Repeated?
    ensures r.Some? ==> |r.value.m.slots| == |fields| && r.value.m.slots[i].Items?
  {
    var held := s.m.slots[i].items;
    if |held| + |items| <= fields[i].htype.arraySize || items == []
    then Some(s.(m := SetSlot(s.m, i, Items(held + items)))) else None
  }

  lemma {:induction false} PackedItemsAreAdded(l: LType, arraySize: nat, items: seq<Datum>, k: nat, held: seq<Datum>)
    requires IsPackable(l) && AllHaveType(l, items) && k <= |items|
    ensures ReadPacked(l, arraySize, PackedTail(l, items, k), held)
         == if |held| + (|items| - k) <= arraySize || k == |items| then Some(held + items[k..]) else None
    decreases |items| - k
  {
    if k < |items| {
      var rest := PackedTail(l, items, k + 1);
      assert HasType(l, items[k]);
      NumberIsRead(l, items[k], rest);
      if |held| < arraySize {
        PackedItemsAreAdded(l, arraySize, items, k + 1, held + [items[k]]);
        assert held + [items[k]] + items[k + 1..] == held + items[k..];
      }
    } else {
      assert held + items[k..] == held;
    }
  }

  /** The packed items from the k-th on. */
  function PackedTail(l: LType, items: seq<Datum>, k: nat): Bytes
    requires k <= |items|
    decreases |items| - k
  {
    if k == |items| then [] else ValueBytes(l, items[k]) + PackedTail(l, items, k + 1)
  }

  lemma {:induction false} PackedFromFront(l: LType, items: seq<Datum>, k: nat)
    requires k <= |items|
    ensures PackedBytes(l, items) == PackedBytes(l, items[..k]) + PackedTail(l, items, k)
    decreases |items| - k
  {
    if k == |items| {
      assert items[..k] == items;
    } else {
      PackedFromFront(l, items, k + 1);
      PackedStep(l, items, k);
      Slices.Associates(PackedBytes(l, items[..k]), ValueBytes(l, items[k]), PackedTail(l, items, k + 1));
    }
  }

  lemma AllPackedItemsAreAdded(l: LType, arraySize: nat, items: seq<Datum>, held: seq<Datum>)
    requires IsPackable(l) && AllHaveType(l, items)
    ensures ReadPacked(l, arraySize, PackedBytes(l, items), held)
         == if |held| + |items| <= arraySize || items == [] then Some(held + items) else None
  {
    var none: seq<Datum> := items[..0];
    PackedFromFront(l, items, 0);
    assert none == [] && items[0..] == items;
    assert PackedBytes(l, none) + PackedTail(l, items, 0) == PackedTail(l, items, 0);
    PackedItemsAreAdded(l, arraySize, items, 0, held);
  }

  /** Goes on reading after the items, if they have been read. */
  function Then(fields: seq<Field>, rest: Bytes, s: Option<State>): Option<State>
    requires s.Some? ==> |s.value.m.slots| == |fields|
  {
    if s.Some? then ReadFields(fields, rest, s.value) else None
  }

  lemma PackedIsAdded(fields: seq<Field>, i: nat, items: seq<Datum>, rest: Bytes, s: State)
    requires IsDescriptor(fields) && i < |fields| == |s.m.slots| && s.m.slots[i].Items?
    requires fields[i].htype.Repeated? && IsPackable(fields[i].ltype)
    requires AllHaveType(fields[i].ltype, items) && |PackedBytes(fields[i].ltype, items)| < TWO_32
    ensures ReadFields(fields,
                       TagBytes(WireString, fields[i].tag) + Prefixed(PackedBytes(fields[i].ltype, items)) + rest, s)
         == Then(fields, rest, WithNumbers(fields, i, items, s))
  {
    var f := fields[i];
    var packed := PackedBytes(f.ltype, items);
    Slices.Associates(TagBytes(WireString, f.tag), Prefixed(packed), rest);
    TagLeadsToField(fields, i, WireString, Prefixed(packed) + rest, s);
    StringIsRead(packed, rest);
    AllPackedItemsAreAdded(f.ltype, f.htype.arraySize, items, s.m.slots[i].items);
    PackedFieldRead(f, i, Prefixed(packed) + rest, s.m);
  }

  lemma NumberIsAdded(fields: seq<Field>, i: nat, v: Datum, rest: Bytes, s: State)
    requires IsDescriptor(fields) && i < |fields| == |s.m.slots| && s.m.slots[i].Items?
    requires fields[i].htype.Repeated? && IsPackable(fields[i].ltype) && HasType(fields[i].ltype, v)
    ensures ReadFields(fields, TaggedBytes(fields[i], v) + rest, s)
         == Then(fields, rest, WithNumbers(fields, i, [v], s))
  {
    var f := fields[i];
    var tag, value := TagBytes(WireTypeOf(f.ltype), f.tag), ValueBytes(f.ltype, v);
    Slices.Associates(tag, value, rest);
    TagLeadsToField(fields, i, WireTypeOf(f.ltype), value + rest, s);
    NumberIsRead(f.ltype, v, rest);
    NumberFieldRead(f, i, WireTypeOf(f.ltype), value + rest, s.m);
  }

  lemma NumberFieldRead(f: Field, i: nat, wire: WireType, data: Bytes, m: Message)
    requires i < |m.slots| && m.slots[i].Items? && f.htype.Repeated? && wire != WireString && IsPackable(f.ltype)
    ensures ReadField(f, i, wire, data, m)
         == if |m.slots[i].items| >= f.htype.arraySize then None
            else match ReadNumber(f.ltype, data)
                 case None => None
                 case Some((v, rest)) => Some((SetSlot(m, i, Items(m.slots[i].items + [v])), rest))
  {
  }

  lemma OneMoreNumber(fields: seq<Field>, i: nat, items: seq<Datum>, k: nat, s: State)
    requires i < |fields| == |s.m.slots| && s.m.slots[i].Items? && fields[i].htype.Repeated? && k < |items|
    ensures WithNumbers(fields, i, items[..k + 1], s)
         == match WithNumbers(fields, i, items[..k], s)
            case None => None
            case Some(x) => WithNumbers(fields, i, [items[k]], x)
  {
    var held := s.m.slots[i].items;
    assert held + items[..k] + [items[k]] == held + items[..k + 1];
    assert s.m.slots[i := Items(held + items[..k])][i := Items(held + items[..k + 1])]
        == s.m.slots[i := Items(held + items[..k + 1])];
    if k == 0 {
      assert held + items[..0] == held && s.m.slots[i := s.m.slots[i]] == s.m.slots;
    }
  }

  lemma NothingIsAdded(fields: seq<Field>, i: nat, items: seq<Datum>, s: State)
    requires i < |fields| == |s.m.slots| && s.m.slots[i].Items? && fields[i].htype.Repeated? && items == []
    ensures WithNumbers(fields, i, items, s) == Some(s)
  {
    assert s.m.slots[i].items + items == s.m.slots[i].items && s.m.slots[i := s.m.slots[i]] == s.m.slots;
  }

  lemma {:induction false} UnpackedIsAdded(fields: seq<Field>, i: nat, items: seq<Datum>, k: nat, rest: Bytes, s: State)
    requires IsDescriptor(fields) && i < |fields| == |s.m.slots| && s.m.slots[i].Items?
    requires fields[i].htype.Repeated? && IsPackable(fields[i].ltype) && AllHaveType(fields[i].ltype, items)
    requires k <= |items|
    ensures ReadFields(fields, UnpackedBytes(fields[i], items[..k]) + rest, s)
         == Then(fields, rest, WithNumbers(fields, i, items[..k], s))
    decreases k
  {
    var f := fields[i];
    if k == 0 {
      NothingIsAdded(fields, i, items[..k], s);
      assert UnpackedBytes(f, items[..k]) + rest == rest;
    } else {
      UnpackedStep(f, items, k - 1);
      var tagged := TaggedBytes(f, items[k - 1]);
      Slices.Associates(UnpackedBytes(f, items[..k - 1]), tagged, rest);
      UnpackedIsAdded(fields, i, items, k - 1, tagged + rest, s);
      OneMoreNumber(fields, i, items, k - 1, s);
      assert HasType(f.ltype, items[k - 1]);
      var before := WithNumbers(fields, i, items[..k - 1], s);
      if before.Some? {
        NumberIsAdded(fields, i, items[k - 1], rest, before.value);
      }
    }
  }

  /** An array of numbers reads the same whether it is sent packed or item by item, also when it is too long. */
  lemma PackedOrNot(fields: seq<Field>, i: nat, items: seq<Datum>, rest: Bytes, s: State)
    requires IsDescriptor(fields) && i < |fields| == |s.m.slots| && s.m.slots[i].Items?
    requires fields[i].htype.Repeated? && IsPackable(fields[i].ltype)
    requires AllHaveType(fields[i].ltype, items) && |PackedBytes(fields[i].ltype, items)| < TWO_32
    ensures ReadFields(fields, UnpackedBytes(fields[i], items) + rest, s)
         == ReadFields(fields,
                       TagBytes(WireString, fields[i].tag) + Prefixed(PackedBytes(fields[i].ltype, items)) + rest, s)
  {
    UnpackedIsAdded(fields, i, items, |items|, rest, s);
    assert items[..|items|] == items;
    PackedIsAdded(fields, i, items, rest, s);
  }

  // ---------------------------------------------------------------- submessages

  /** Which required fields have been seen has no influence on what is read. */
  lemma {:induction false} SeenIsSeparate(fields: seq<Field>, data: Bytes, m: Message, seen: set<nat>)
    requires |m.slots| == |fields|
    ensures var r := ReadFields(fields, data, State(m, {}));
            ReadFields(fields, data, State(m, seen))
            == if r.Some? then Some(r.value.(seen := seen + r.value.seen)) else None
    decreases |data|
  {
    SeenAddsUp(fields, data, m, {}, seen);
    assert seen + {} == seen;
  }

  lemma {:induction false} SeenAddsUp(fields: seq<Field>, data: Bytes, m: Message, some: set<nat>, more: set<nat>)
    requires |m.slots| == |fields|
    ensures var r := ReadFields(fields, data, State(m, some));
            ReadFields(fields, data, State(m, more + some))
            == if r.Some? then Some(r.value.(seen := more + r.value.seen)) else None
    decreases |data|
  {
    var t := ReadTag(data);
    if t.Tag? {
      var r := ReadTagged(fields, t.wire, t.tag, t.rest, State(m, some));
      TaggedSeen(fields, t.wire, t.tag, t.rest, m, some, more);
      if r.Some? {
        SeenAddsUp(fields, r.value.1, r.value.0.m, r.value.0.seen, more);
      }
    }
  }

  lemma TaggedSeen(fields: seq<Field>, wire: WireType, tag: nat, data: Bytes, m: Message, some: set<nat>,
                   more: set<nat>)
    requires |m.slots| == |fields|
    ensures var r := ReadTagged(fields, wire, tag, data, State(m, some));
            ReadTagged(fields, wire, tag, data, State(m, more + some))
            == if r.Some? then Some((r.value.0.(seen := more + r.value.0.seen), r.value.1)) else None
  {
    if HasTag(fields, tag) {
      var i := IndexOf(fields, tag);
      assert Seen(fields, i, more + some) == more + Seen(fields, i, some);
    }
  }

  /**
   A submessage that is sent in two parts, each with its required fields, is merged: it reads as one whose encoding is
   the two, end to end.
   */
  lemma SubmessagesMerge(fields: seq<Field>, a: Bytes, b: Bytes, held: Message)
    requires |held.slots| == |fields| && AreFields(fields, a, State(held, {}))
    requires ReadMessage(fields, a, held).Some? && ReadMessage(fields, b, ReadMessage(fields, a, held).value).Some?
    ensures ReadMessage(fields, a + b, held) == ReadMessage(fields, b, ReadMessage(fields, a, held).value)
  {
    Concatenation(fields, a, b, State(held, {}));
    var x := AfterFields(fields, a, State(held, {}));
    SeenIsSeparate(fields, b, x.m, x.seen);
  }
}
