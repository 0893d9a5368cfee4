/**
 What the decoder makes of any string of bytes: fields in any order, repeated, unknown or missing (pb_decode.c).
 */
module NanopbParsing {
  import opened Coding
  import opened NanopbIterator
  import opened NanopbMessages
  import opened NanopbWire
  import opened Reads

  // ---------------------------------------------------------------- one value

  /** The first of these bytes up to a zero. */
  function Terminated(data: Bytes): (chars: Bytes)
    ensures |chars| <= |data| && forall i | 0 <= i < |chars| :: chars[i] != 0
  {
    if data == [] || data[0] == 0 then [] else [data[0]] + Terminated(data[1..])
  }

  /** The number cut to the width of the member, if it is still the same number. */
  function SignedMember(w: Width, n: int): Option<Datum> {
    if FitsSigned(w, n) then Some(VNumber(n)) else None
  }

  function UnsignedMember(w: Width, n: nat): Option<Datum> {
    if FitsUnsigned(w, n) then Some(VNumber(n)) else None
  }

  function Attach(v: Option<Datum>, rest: Bytes): Option<(Datum, Bytes)> {
    if v.Some? then Some((v.value, rest)) else None
  }

  /** The types that can be packed. */
  function ReadNumber(l: LType, data: Bytes): (r: Option<(Datum, Bytes)>)
    requires IsPackable(l)
    ensures r.Some? ==> |r.value.1| < |data|
  {
    match l
    case LBool =>
      (match ReadVarint32(data)
       case None => None
       case Some((v, rest)) => Some((VBool(v != 0), rest)))
    case LVarint(w) =>
      (match ReadVarint(data)
       case None => None
       case Some((v, rest)) => Attach(SignedMember(w, if w.EightBytes? then Signed64(v) else Signed32(v)), rest))
    case LUVarint(w) =>
      (match ReadVarint(data)
       case None => None
       case Some((v, rest)) => Attach(UnsignedMember(w, v), rest))
    case LSVarint(w) =>
      (match ReadVarint(data)
       case None => None
       case Some((v, rest)) => Attach(SignedMember(w, UnZigZag(v)), rest))
    case LFixed32 => if |data| < 4 then None else Some((VNumber(DecodeFixed32(data)), data[4..]))
    case LFixed64 => if |data| < 8 then None else Some((VNumber(DecodeFixed64(data)), data[8..]))
  }

  /** A length-prefixed member other than a submessage. */
  function StringMember(l: LType, s: Bytes): Option<Datum> {
    match l
    case LBytes(size) => if |s| + BYTES_HEADER > size then None else Some(VBytes(s))
    case LString(size) => if |s| + 1 > size then None else Some(VString(Terminated(s)))
    case LFixedLengthBytes(size) =>
      if s == [] then Some(VBytes(Zeros(size))) else if |s| != size then None else Some(VBytes(s))
    case _ => None
  }

  /** held is what the member holds: a submessage adds to it. */
  function ReadValue(l: LType, data: Bytes, held: Datum): (r: Option<(Datum, Bytes)>)
    ensures r.Some? ==> |r.value.1| < |data|
    decreases l, 0
  {
    if IsPackable(l) then ReadNumber(l, data)
    else
      match ReadString(data)
      case None => None
      case Some((s, rest)) =>
        match l
        case LSubmessage(fields) =>
          var start := if held.VMessage? && |held.m.slots| == |fields| then held.m else DefaultMessage(fields);
          (match ReadMessage(fields, s, start)
           case None => None
           case Some(m) => Some((VMessage(m), rest)))
        case _ => Attach(StringMember(l, s), rest)
  }

  // ---------------------------------------------------------------- one field

  /** As many items as there are bytes for, up to the size of the array. */
  function ReadPacked(l: LType, arraySize: nat, data: Bytes, items: seq<Datum>): (r: Option<seq<Datum>>)
    requires IsPackable(l)
    decreases |data|
  {
    if data == [] then Some(items)
    else if |items| >= arraySize then None
    else
      match ReadNumber(l, data)
      case None => None
      case Some((v, rest)) => ReadPacked(l, arraySize, rest, items + [v])
  }

  function SetSlot(m: Message, i: nat, s: Slot): (m': Message)
    requires i < |m.slots|
    ensures |m'.slots| == |m.slots|
  {
    m.(slots := m.slots[i := s])
  }

  /** The value, in a slot of the same kind. */
  function Updated(s: Slot, v: Datum): Slot {
    match s
    case Single(_) => Single(v)
    case WithHas(_, _) => WithHas(true, v)
    case Items(items) => Items(items + [v])
    case InUnion => InUnion
  }

  /** decode_static_field. */
  function ReadField(f: Field, i: nat, wire: WireType, data: Bytes, m: Message): (r: Option<(Message, Bytes)>)
    requires i < |m.slots|
    ensures r.Some? ==> |r.value.0.slots| == |m.slots| && |r.value.1| < |data|
    decreases f, 1
  {
    match m.slots[i]
    case Items(items) =>
      if !f.htype.Repeated? then None
      else if wire == WireString && IsPackable(f.ltype) then
        match ReadString(data)
        case None => None
        case Some((s, rest)) =>
          match ReadPacked(f.ltype, f.htype.arraySize, s, items)
          case None => None
          case Some(all) => Some((SetSlot(m, i, Items(all)), rest))
      else if |items| >= f.htype.arraySize then None
      else
        (match ReadValue(f.ltype, data, ItemDefault(f))
         case None => None
         case Some((v, rest)) => Some((SetSlot(m, i, Items(items + [v])), rest)))
    case InUnion =>
      if !f.htype.OneOf? then None
      else
        var u := f.htype.union;
        var held := if u in m.unions && m.unions[u].tag == f.tag then m.unions[u].v else ItemDefault(f);
        (match ReadValue(f.ltype, data, held)
         case None => None
         case Some((v, rest)) => Some((m.(unions := m.unions[u := Choice(f.tag, v)]), rest)))
    case _ =>
      (match ReadValue(f.ltype, data, m.slots[i].v)
       case None => None
       case Some((v, rest)) => Some((SetSlot(m, i, Updated(m.slots[i], v)), rest)))
  }

  /** What a new array item, or a union member just chosen, holds before it is read. */
  function ItemDefault(f: Field): Datum {
    match f.ltype
    case LSubmessage(fields) => VMessage(DefaultMessage(fields))
    case _ => ZeroOf(f.ltype)
  }

  // ---------------------------------------------------------------- all fields

  const MAX_REQUIRED_FIELDS := 64

  function IndexOf(fields: seq<Field>, tag: nat): (i: nat)
    requires HasTag(fields, tag)
    ensures i < |fields| && fields[i].tag == tag
    ensures forall j | 0 <= j < i :: fields[j].tag != tag
  {
    if fields[0].tag == tag then 0
    else
      assert forall i | 0 <= i < |fields[1..]| :: fields[1..][i] == fields[i + 1];
      IndexOf(fields[1..], tag) + 1
  }

  /** A tag of the descriptor is the tag of one field. */
  lemma FoundAt(fields: seq<Field>, i: nat)
    requires IsDescriptor(fields) && i < |fields|
    ensures HasTag(fields, fields[i].tag) && IndexOf(fields, fields[i].tag) == i && IsFieldDescriptor(fields[i])
  {
  }

  /** The required fields seen so far, by their number among the required ones; only the first 64 are kept track of. */
  function Seen(fields: seq<Field>, i: nat, seen: set<nat>): set<nat>
    requires i < |fields|
  {
    if fields[i].htype.Required? && RequiredBefore(fields, i) < MAX_REQUIRED_FIELDS
    then seen + {RequiredBefore(fields, i)} else seen
  }

  datatype State = State(m: Message, seen: set<nat>)

  /** The loop of pb_decode_noinit. */
  function ReadFields(fields: seq<Field>, data: Bytes, s: State): (r: Option<State>)
    requires |s.m.slots| == |fields|
    ensures r.Some? ==> |r.value.m.slots| == |fields|
    decreases fields, |data|
  {
    match ReadTag(data)
    case EndOfMessage => Some(s)
    case BadTag => None
    case Tag(wire, tag, rest) =>
      match ReadTagged(fields, wire, tag, rest, s)
      case None => None
      case Some((s', rest')) => ReadFields(fields, rest', s')
  }

  /** What comes after a tag: a field of the descriptor, or something to pass over. */
  function ReadTagged(fields: seq<Field>, wire: WireType, tag: nat, data: Bytes, s: State): (r: Option<(State, Bytes)>)
    requires |s.m.slots| == |fields|
    ensures r.Some? ==> |r.value.0.m.slots| == |fields| && |r.value.1| <= |data|
    decreases fields, |data|, 0
  {
    if fields == [] && tag == 0 then
      // The terminator of an empty descriptor reads as a required bool with tag 0.
      match ReadVarint32(data)
      case None => None
      case Some((_, rest)) => Some((s, rest))
    else if HasTag(fields, tag) then
      var i := IndexOf(fields, tag);
      match ReadField(fields[i], i, wire, data, s.m)
      case None => None
      case Some((m, rest)) => Some((State(m, Seen(fields, i, s.seen)), rest))
    else
      match SkipField(wire, data)
      case None => None
      case Some(rest) => Some((s, rest))
  }

  function Smaller(a: nat, b: nat): nat {
    if a < b then a else b
  }

  /** pb_decode_noinit. */
  function ReadMessage(fields: seq<Field>, data: Bytes, m: Message): (r: Option<Message>)
    requires |m.slots| == |fields|
    ensures r.Some? ==> |r.value.slots| == |fields|
    decreases fields
  {
    match ReadFields(fields, data, State(m, {}))
    case None => None
    case Some(s) => if AllSeen(fields, s.seen) then Some(s.m) else None
  }

  /** Every required field has been seen, of those that are kept track of. */
  predicate AllSeen(fields: seq<Field>, seen: set<nat>) {
    forall k | 0 <= k < Smaller(RequiredBefore(fields, |fields|), MAX_REQUIRED_FIELDS) :: k in seen
  }

  /** pb_decode. */
  function Decode(fields: seq<Field>, data: Bytes): (r: Option<Message>)
    ensures r.Some? ==> |r.value.slots| == |fields|
  {
    ReadMessage(fields, data, DefaultMessage(fields))
  }
}
