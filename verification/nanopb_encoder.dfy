/**
 The encoder: it goes over every submessage twice, once to size it and once to write it (pb_encode.c).
 */
module NanopbEncoder {
  import opened Coding
  import opened NanopbIterator
  import opened NanopbMessages
  import opened NanopbWire
  import opened Reads

  datatype Status = Good | StreamFull | ArrayTooLong | BytesTooLong | SizeChanged | BadLayout

  /** pb_ostream_t: into a buffer of maxSize bytes, or only counting. */
  class OutputStream {
    const sizing: bool
    const maxSize: nat
    var bytesWritten: nat
    var written: Bytes

    ghost predicate Valid()
      reads this
    {
      if sizing then written == [] else |written| == bytesWritten <= maxSize
    }

    constructor (sizing: bool, maxSize: nat)
      ensures Valid() && this.sizing == sizing && this.maxSize == maxSize && bytesWritten == 0 && written == []
    {
      this.sizing, this.maxSize := sizing, maxSize;
      bytesWritten, written := 0, [];
    }

    predicate HasRoom(count: nat, n: nat) {
      sizing || count + n <= maxSize
    }

    /** The stream has taken these bytes, after what it had. */
    ghost predicate Took(before: Bytes, count: nat, bytes: Bytes)
      reads this
    {
      bytesWritten == count + |bytes| && written == if sizing then before else before + bytes
    }

    /** Taking one thing and then another is taking both. */
    lemma Then(before: Bytes, count: nat, a: Bytes, mid: Bytes, midCount: nat, b: Bytes)
      requires midCount == count + |a| && mid == (if sizing then before else before + a) && Took(mid, midCount, b)
      ensures Took(before, count, a + b)
    {
      assert (before + a) + b == before + (a + b);
    }

    /** pb_write. */
    method Write(buf: Bytes) returns (status: Status)
      requires Valid()
      modifies this
      ensures Valid() && (status == Good <==> HasRoom(old(bytesWritten), |buf|)) && status != SizeChanged
      ensures status == Good ==> Took(old(written), old(bytesWritten), buf)
    {
      if |buf| > 0 && !sizing {
        if bytesWritten + |buf| > maxSize {
          return StreamFull;
        }
        written := written + buf;
      }
      bytesWritten := bytesWritten + |buf|;
      status := Good;
    }

    /** pb_write without a buffer, on a stream that only counts. */
    method Count(n: nat)
      requires Valid() && sizing
      modifies this
      ensures Valid() && bytesWritten == old(bytesWritten) + n && written == old(written)
    {
      bytesWritten := bytesWritten + n;
    }

    method WriteVarint(value: nat) returns (status: Status)
      requires Valid()
      modifies this
      ensures Valid() && (status == Good <==> HasRoom(old(bytesWritten), |Varint(value)|)) && status != SizeChanged
      ensures status == Good ==> Took(old(written), old(bytesWritten), Varint(value))
    {
      var buffer := EncodeVarint(value);
      status := Write(buffer);
    }

    /** pb_encode_string. */
    method WriteString(s: Bytes) returns (status: Status)
      requires Valid()
      modifies this
      ensures Valid() && (status == Good <==> HasRoom(old(bytesWritten), |Prefixed(s)|)) && status != SizeChanged
      ensures status == Good ==> Took(old(written), old(bytesWritten), Prefixed(s))
    {
      status := WriteVarint(|s|);
      if status != Good {
        return;
      }
      status := Write(s);
    }

    method WriteTag(w: WireType, tag: nat) returns (status: Status)
      requires Valid() && w != WireOther
      modifies this
      ensures Valid() && (status == Good <==> HasRoom(old(bytesWritten), |TagBytes(w, tag)|)) && status != SizeChanged
      ensures status == Good ==> Took(old(written), old(bytesWritten), TagBytes(w, tag))
    {
      status := WriteVarint(tag * 8 + WireNumber(w));
    }
  }

  /** The numeric encoders. */
  method EncodeNumber(stream: OutputStream, l: LType, n: int) returns (status: Status)
    requires stream.Valid() && !l.LBool? && IsPackable(l) && HasType(l, VNumber(n))
    modifies stream
    ensures stream.Valid() && (status == Good <==> stream.HasRoom(old(stream.bytesWritten), |NumberBytes(l, n)|))
    ensures status == Good ==> stream.Took(old(stream.written), old(stream.bytesWritten), NumberBytes(l, n))
    ensures status != SizeChanged
  {
    match l
    case LVarint(_) => status := stream.WriteVarint(Unsigned64(n));
    case LUVarint(_) => status := stream.WriteVarint(n);
    case LSVarint(_) => status := stream.WriteVarint(ZigZag(n));
    case LFixed32 => status := stream.Write(EncodeFixed32(n));
    case LFixed64 => status := stream.Write(EncodeFixed64(n));
  }

  method EncodeValue(stream: OutputStream, l: LType, v: Datum) returns (status: Status)
    requires stream.Valid() && IsFieldType(l) && HasType(l, v)
    modifies stream
    ensures stream.Valid()
    ensures status == Good <==> ValueFits(l, v) && stream.HasRoom(old(stream.bytesWritten), |ValueBytes(l, v)|)
    ensures status == Good ==> stream.Took(old(stream.written), old(stream.bytesWritten), ValueBytes(l, v))
    ensures status != SizeChanged
    decreases l, 0
  {
    match l
    case LBool => status := stream.WriteVarint(if v.b then 1 else 0);
    case LBytes(size) =>
      if |v.data| + BYTES_HEADER > size {
        return BytesTooLong;
      }
      status := stream.WriteString(v.data);
    case LString(_) => status := stream.WriteString(v.chars);
    case LSubmessage(fields) => status := EncodeSubmessage(stream, fields, v.m);
    case LFixedLengthBytes(_) => status := stream.WriteString(v.data);
    case _ => status := EncodeNumber(stream, l, v.n);
  }

  /** Sizes the submessage, writes the length, and writes the submessage on a stream of exactly that size. */
  method EncodeSubmessage(stream: OutputStream, fields: seq<Field>, m: Message) returns (status: Status)
    requires stream.Valid() && IsDescriptor(fields) && IsMessage(fields, m)
    modifies stream
    ensures stream.Valid()
    ensures status == Good <==>
            AllFit(fields, m) && stream.HasRoom(old(stream.bytesWritten), |Prefixed(FieldsBytes(fields, m))|)
    ensures status == Good ==>
              stream.Took(old(stream.written), old(stream.bytesWritten), Prefixed(FieldsBytes(fields, m)))
    ensures status != SizeChanged
    decreases fields, 2
  {
    var sizer := new OutputStream(true, 0);
    status := Encode(sizer, fields, m);
    if status != Good {
      return;
    }
    var size := sizer.bytesWritten;
    status := stream.WriteVarint(size);
    if status != Good {
      return;
    }
    if stream.sizing {
      stream.Count(size);
      return Good;
    }
    if stream.bytesWritten + size > stream.maxSize {
      return StreamFull;
    }
    var substream := new OutputStream(false, size);
    status := Encode(substream, fields, m);
    stream.bytesWritten := stream.bytesWritten + substream.bytesWritten;
    stream.written := stream.written + substream.written;
    if substream.bytesWritten != size {
      status := SizeChanged;
    }
  }

  /** Tag and value for each. */
  method EncodeTagged(stream: OutputStream, f: Field, v: Datum) returns (status: Status)
    requires stream.Valid() && IsFieldType(f.ltype) && HasType(f.ltype, v)
    modifies stream
    ensures stream.Valid()
    ensures status == Good <==> ValueFits(f.ltype, v) && stream.HasRoom(old(stream.bytesWritten), |TaggedBytes(f, v)|)
    ensures status == Good ==> stream.Took(old(stream.written), old(stream.bytesWritten), TaggedBytes(f, v))
    ensures status != SizeChanged
    decreases f, 0
  {
    status := stream.WriteTag(WireTypeOf(f.ltype), f.tag);
    if status != Good {
      return;
    }
    ghost var mid, midCount := stream.written, stream.bytesWritten;
    status := EncodeValue(stream, f.ltype, v);
    if status == Good {
      stream.Then(old(stream.written), old(stream.bytesWritten), TagBytes(WireTypeOf(f.ltype), f.tag), mid, midCount,
                  ValueBytes(f.ltype, v));
    }
  }

  lemma {:induction false} FixedSizes(l: LType, items: seq<Datum>)
    requires AllHaveType(l, items)
    ensures l.LFixed32? ==> |PackedBytes(l, items)| == 4 * |items|
    ensures l.LFixed64? ==> |PackedBytes(l, items)| == 8 * |items|
  {
    if items != [] {
      assert HasType(l, items[|items| - 1]);
      var front := items[..|items| - 1];
      forall k | 0 <= k < |front|
        ensures HasType(l, front[k])
      {
        assert HasType(l, items[k]);
      }
      FixedSizes(l, front);
    }
  }

  /** The items of a packed array one after the other. */
  method EncodePacked(stream: OutputStream, l: LType, items: seq<Datum>) returns (status: Status)
    requires stream.Valid() && IsPackable(l) && AllHaveType(l, items)
    modifies stream
    ensures stream.Valid() && (status == Good <==> stream.HasRoom(old(stream.bytesWritten), |PackedBytes(l, items)|))
    ensures status == Good ==> stream.Took(old(stream.written), old(stream.bytesWritten), PackedBytes(l, items))
    ensures status != SizeChanged
    decreases l, 1
  {
    status := Good;
    assert items[..0] == [];
    for i := 0 to |items|
      invariant stream.Valid() && stream.HasRoom(old(stream.bytesWritten), |PackedBytes(l, items[..i])|)
      invariant stream.Took(old(stream.written), old(stream.bytesWritten), PackedBytes(l, items[..i]))
      invariant status == Good
    {
      assert HasType(l, items[i]);
      PackedStep(l, items, i);
      ghost var mid, midCount := stream.written, stream.bytesWritten;
      status := EncodeValue(stream, l, items[i]);
      if status != Good {
        return;
      }
      stream.Then(old(stream.written), old(stream.bytesWritten), PackedBytes(l, items[..i]), mid, midCount,
                  ValueBytes(l, items[i]));
    }
    assert items[..|items|] == items;
  }

  /** The size of a packed array: counted, unless every item has the same. */
  method PackedSize(l: LType, items: seq<Datum>) returns (size: nat)
    requires IsPackable(l) && AllHaveType(l, items)
    ensures size == |PackedBytes(l, items)|
    decreases l, 2
  {
    FixedSizes(l, items);
    if l.LFixed32? {
      size := 4 * |items|;
    } else if l.LFixed64? {
      size := 8 * |items|;
    } else {
      var sizer := new OutputStream(true, 0);
      var status := EncodePacked(sizer, l, items);
      size := sizer.bytesWritten;
    }
  }

  method EncodeUnpacked(stream: OutputStream, f: Field, items: seq<Datum>) returns (status: Status)
    requires stream.Valid() && IsFieldType(f.ltype) && AllHaveType(f.ltype, items)
    modifies stream
    ensures stream.Valid()
    ensures status == Good <==>
            ItemsFit(f.ltype, items) && stream.HasRoom(old(stream.bytesWritten), |UnpackedBytes(f, items)|)
    ensures status == Good ==> stream.Took(old(stream.written), old(stream.bytesWritten), UnpackedBytes(f, items))
    ensures status != SizeChanged
    decreases f, 2
  {
    status := Good;
    assert items[..0] == [] && items[..|items|] == items;
    for i := 0 to |items|
      invariant stream.Valid() && stream.HasRoom(old(stream.bytesWritten), |UnpackedBytes(f, items[..i])|)
      invariant stream.Took(old(stream.written), old(stream.bytesWritten), UnpackedBytes(f, items[..i]))
      invariant status == Good && forall k {:trigger ValueFits(f.ltype, items[k])} | 0 <= k < i ::
                  ValueFits(f.ltype, items[k])
    {
      status := EncodeNextItem(stream, f, items, i, old(stream.written), old(stream.bytesWritten));
      if status != Good {
        return;
      }
    }
  }

  /** One item more. */
  method EncodeNextItem(stream: OutputStream, f: Field, items: seq<Datum>, i: nat, ghost before: Bytes,
                        ghost count: nat)
    returns (status: Status)
    requires stream.Valid() && IsFieldType(f.ltype) && AllHaveType(f.ltype, items) && i < |items|
    requires stream.HasRoom(count, |UnpackedBytes(f, items[..i])|)
               && stream.Took(before, count, UnpackedBytes(f, items[..i]))
    modifies stream
    ensures stream.Valid() && status != SizeChanged
    ensures status == Good ==>
              && stream.HasRoom(count, |UnpackedBytes(f, items[..i + 1])|)
              && stream.Took(before, count, UnpackedBytes(f, items[..i + 1])) && ValueFits(f.ltype, items[i])
    ensures status != Good ==> !(ValueFits(f.ltype, items[i]) && stream.HasRoom(count, |UnpackedBytes(f, items)|))
    decreases f, 1
  {
    UnpackedStep(f, items, i);
    assert HasType(f.ltype, items[i]);
    ghost var mid, midCount := stream.written, stream.bytesWritten;
    status := EncodeTagged(stream, f, items[i]);
    if status == Good {
      stream.Then(before, count, UnpackedBytes(f, items[..i]), mid, midCount, TaggedBytes(f, items[i]));
    }
  }

  function ArrayBytes(f: Field, items: seq<Datum>): Bytes {
    if IsPackable(f.ltype) then
      if items == [] then [] else TagBytes(WireString, f.tag) + Prefixed(PackedBytes(f.ltype, items))
    else UnpackedBytes(f, items)
  }

  /** encode_array. */
  method EncodeArray(stream: OutputStream, f: Field, items: seq<Datum>) returns (status: Status)
    requires stream.Valid() && IsFieldType(f.ltype) && f.htype.Repeated? && AllHaveType(f.ltype, items)
    modifies stream
    ensures stream.Valid()
    ensures status == Good <==>
            && |items| <= f.htype.arraySize && ItemsFit(f.ltype, items)
            && stream.HasRoom(old(stream.bytesWritten), |ArrayBytes(f, items)|)
    ensures status == Good ==> stream.Took(old(stream.written), old(stream.bytesWritten), ArrayBytes(f, items))
    ensures status != SizeChanged
    decreases f, 3
  {
    if |items| == 0 {
      return Good;
    }
    if |items| > f.htype.arraySize {
      return ArrayTooLong;
    }
    if !IsPackable(f.ltype) {
      status := EncodeUnpacked(stream, f, items);
      return;
    }
    NumbersFit(f.ltype, items);
    status := stream.WriteTag(WireString, f.tag);
    if status != Good {
      return;
    }
    ghost var mid, midCount := stream.written, stream.bytesWritten;
    status := EncodeLengthAndItems(stream, f.ltype, items);
    if status == Good {
      stream.Then(old(stream.written), old(stream.bytesWritten), TagBytes(WireString, f.tag), mid, midCount,
                  Prefixed(PackedBytes(f.ltype, items)));
    }
  }

  /** The size of a packed array, and unless the stream only counts the items. */
  method EncodeLengthAndItems(stream: OutputStream, l: LType, items: seq<Datum>) returns (status: Status)
    requires stream.Valid() && IsPackable(l) && AllHaveType(l, items)
    modifies stream
    ensures stream.Valid()
    ensures status == Good <==> stream.HasRoom(old(stream.bytesWritten), |Prefixed(PackedBytes(l, items))|)
    ensures status == Good ==>
              stream.Took(old(stream.written), old(stream.bytesWritten), Prefixed(PackedBytes(l, items)))
    ensures status != SizeChanged
    decreases l, 3
  {
    ghost var bytes := PackedBytes(l, items);
    var size := PackedSize(l, items);
    status := stream.WriteVarint(size);
    if status != Good {
      return;
    }
    ghost var mid, midCount := stream.written, stream.bytesWritten;
    if stream.sizing {
      stream.Count(size);
    } else {
      status := EncodePacked(stream, l, items);
    }
    if status == Good {
      stream.Then(old(stream.written), old(stream.bytesWritten), Varint(size), mid, midCount, bytes);
    }
  }

  lemma NumbersFit(l: LType, items: seq<Datum>)
    requires IsPackable(l) && AllHaveType(l, items)
    ensures ItemsFit(l, items)
  {
    forall k | 0 <= k < |items|
      ensures ValueFits(l, items[k])
    {
      assert HasType(l, items[k]);
    }
  }

  /** encode_basic_field. */
  method EncodeField(stream: OutputStream, f: Field, m: Message, i: nat) returns (status: Status)
    requires stream.Valid() && IsFieldType(f.ltype) && i < |m.slots| && IsMember(f, m, i)
    modifies stream
    ensures stream.Valid()
    ensures status == Good <==> FieldFits(f, m, i) && stream.HasRoom(old(stream.bytesWritten), |FieldBytes(f, m, i)|)
    ensures status == Good ==> stream.Took(old(stream.written), old(stream.bytesWritten), FieldBytes(f, m, i))
    ensures status != SizeChanged
    decreases f, 4
  {
    match f.htype
    case Required =>
      status := EncodePresent(stream, f, m, i, Some(m.slots[i].v));
    case Optional(hasMember) =>
      var present := if hasMember then m.slots[i].has else !IsZero(f.ltype, m.slots[i].v);
      status := EncodePresent(stream, f, m, i, if present then Some(m.slots[i].v) else None);
    case Repeated(_) =>
      ItemsPresent(f, m, i);
      status := EncodeArray(stream, f, m.slots[i].items);
    case OneOf(u) =>
      var present := u in m.unions && m.unions[u].tag == f.tag;
      status := EncodePresent(stream, f, m, i, if present then Some(m.unions[u].v) else None);
  }

  /** A field that is not an array: its value, if that is present. */
  method EncodePresent(stream: OutputStream, f: Field, m: Message, i: nat, v: Option<Datum>) returns (status: Status)
    requires stream.Valid() && IsFieldType(f.ltype) && i < |m.slots| && IsMember(f, m, i) && !f.htype.Repeated?
    requires Present(f, m, i) == if v.Some? then [v.value] else []
    modifies stream
    ensures stream.Valid()
    ensures status == Good <==> FieldFits(f, m, i) && stream.HasRoom(old(stream.bytesWritten), |FieldBytes(f, m, i)|)
    ensures status == Good ==> stream.Took(old(stream.written), old(stream.bytesWritten), FieldBytes(f, m, i))
    ensures status != SizeChanged
    decreases f, 3
  {
    if v.Some? {
      OnePresent(f, m, i, v.value);
      status := EncodeTagged(stream, f, v.value);
    } else {
      NonePresent(f, m, i);
      status := Good;
    }
  }

  lemma ItemsPresent(f: Field, m: Message, i: nat)
    requires i < |m.slots| && IsMember(f, m, i) && f.htype.Repeated?
    ensures FieldBytes(f, m, i) == ArrayBytes(f, m.slots[i].items)
    ensures FieldFits(f, m, i) <==> |m.slots[i].items| <= f.htype.arraySize && ItemsFit(f.ltype, m.slots[i].items)
    ensures AllHaveType(f.ltype, m.slots[i].items)
  {
  }

  /** pb_encode: field after field, as the iterator gives them. */
  method Encode(stream: OutputStream, fields: seq<Field>, m: Message) returns (status: Status)
    requires stream.Valid() && IsDescriptor(fields) && IsMessage(fields, m)
    modifies stream
    ensures stream.Valid()
    ensures status == Good <==> AllFit(fields, m) && stream.HasRoom(old(stream.bytesWritten), |FieldsBytes(fields, m)|)
    ensures status == Good ==> stream.Took(old(stream.written), old(stream.bytesWritten), FieldsBytes(fields, m))
    ensures status != SizeChanged
    decreases fields, 1
  {
    assert fields[..|fields|] == fields;
    var iter := new FieldIterator.Begin(fields);
    status := Good;
    if iter.Tag() == 0 {
      return;
    }
    var more := true;
    while more
      invariant stream.Valid() && iter.Valid() && iter.fields == fields && fields != [] && status == Good
      invariant var n := if more then iter.pos else |fields|;
        && stream.HasRoom(old(stream.bytesWritten), |FieldsBytes(fields[..n], m)|)
        && stream.Took(old(stream.written), old(stream.bytesWritten), FieldsBytes(fields[..n], m))
        && AllFit(fields[..n], m)
      decreases more, |fields| - iter.pos
    {
      status := EncodeNext(stream, fields, m, iter.pos, old(stream.written), old(stream.bytesWritten));
      if status != Good {
        return;
      }
      more := iter.Next();
    }
  }

  /** One field more. */
  method EncodeNext(stream: OutputStream, fields: seq<Field>, m: Message, i: nat, ghost before: Bytes, ghost count: nat)
    returns (status: Status)
    requires stream.Valid() && IsDescriptor(fields) && IsMessage(fields, m) && i < |fields|
    requires stream.HasRoom(count, |FieldsBytes(fields[..i], m)|)
               && stream.Took(before, count, FieldsBytes(fields[..i], m))
    requires AllFit(fields[..i], m)
    modifies stream
    ensures stream.Valid() && status != SizeChanged
    ensures status == Good ==>
              && stream.HasRoom(count, |FieldsBytes(fields[..i + 1], m)|)
              && stream.Took(before, count, FieldsBytes(fields[..i + 1], m)) && AllFit(fields[..i + 1], m)
    ensures status != Good ==> !(AllFit(fields, m) && stream.HasRoom(count, |FieldsBytes(fields, m)|))
    decreases fields, 0
  {
    FieldsStep(fields, m, i);
    assert IsFieldDescriptor(fields[i]);
    ghost var mid, midCount := stream.written, stream.bytesWritten;
    status := EncodeField(stream, fields[i], m, i);
    if status == Good {
      stream.Then(before, count, FieldsBytes(fields[..i], m), mid, midCount, FieldBytes(fields[i], m, i));
    }
  }

  /** pb_get_encoded_size. */
  method GetEncodedSize(fields: seq<Field>, m: Message) returns (status: Status, size: nat)
    requires IsDescriptor(fields) && IsMessage(fields, m)
    ensures (status == Good <==> AllFit(fields, m)) && status != SizeChanged
    ensures status == Good ==> size == |FieldsBytes(fields, m)|
  {
    var stream := new OutputStream(true, 0);
    status := Encode(stream, fields, m);
    size := stream.bytesWritten;
  }
}
