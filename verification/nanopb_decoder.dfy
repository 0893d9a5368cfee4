/**
 The decoder: streams within streams, a cyclic field iterator, and a bitmap of the required fields seen (pb_decode.c).
 */
module NanopbDecoder {
  import opened Coding
  import opened Keys
  import opened NanopbIterator
  import opened NanopbMessages
  import opened NanopbParsing
  import opened NanopbWire
  import opened Reads

  /** The first n bytes of a varint have been read; sum is what they amount to, and result that at 64 bits. */
  ghost predicate Reading(all: Bytes, n: nat, sum: nat, result: Uint64) {
    && n <= 10 && n <= |all| && result == sum % TWO_64
    && ParseVarint(all, 10) == ReadSoFar(sum, n, ParseVarint(all[n..], 10 - n))
  }

  lemma ReadingStep(all: Bytes, n: nat, sum: nat, result: Uint64)
    requires Reading(all, n, sum, result) && n < 10 && n < |all|
    ensures var more := Shifted((all[n] % 128) as nat, n);
            && (all[n] >= 128 ==> Reading(all, n + 1, sum + more, (result + more) % TWO_64))
            && (all[n] < 128 ==> ReadVarint(all) == Some(((result + more) % TWO_64, all[n + 1..])))
  {
    ParseStep(all, 10, sum, n);
    SumModulo(sum, Shifted((all[n] % 128) as nat, n));
    assert all[n] >= 128 ==> all[n] as nat - 128 == (all[n] % 128) as nat;
    assert all[n] < 128 ==> all[n] as nat == (all[n] % 128) as nat;
  }

  lemma SumModulo(sum: nat, more: nat)
    ensures (sum % TWO_64 + more) % TWO_64 == (sum + more) % TWO_64
  {
    var q := sum / TWO_64;
    assert sum + more == (sum % TWO_64 + more) + q * TWO_64;
    AddMultiple(sum % TWO_64 + more, q);
  }

  lemma {:induction false} AddMultiple(a: nat, q: nat)
    ensures (a + q * TWO_64) % TWO_64 == a % TWO_64
  {
    if q > 0 {
      AddMultiple(a, q - 1);
      OneMultiple(a + (q - 1) * TWO_64);
    }
  }

  lemma OneMultiple(a: nat)
    ensures (a + TWO_64) % TWO_64 == a % TWO_64
  {
  }

  /** pb_istream_t, over a buffer: what is left of it starts at pos. */
  class InputStream {
    const data: Bytes
    var pos: nat
    var left: nat

    ghost predicate Valid()
      reads this
    {
      pos + left <= |data|
    }

    ghost function Rest(): Bytes
      requires Valid()
      reads this
    {
      data[pos..pos + left]
    }

    constructor (data: Bytes, pos: nat, left: nat)
      requires pos + left <= |data|
      ensures Valid() && Rest() == data[pos..pos + left]
      ensures this.data == data && this.pos == pos && this.left == left
    {
      this.data, this.pos, this.left := data, pos, left;
    }

    /** The stream has read what a parser reads. */
    ghost predicate Has<T(!new)>(r: Option<T>, parsed: Option<(T, Bytes)>)
      requires Valid()
      reads this
    {
      if parsed.None? then r.None? else r == Some(parsed.value.0) && Rest() == parsed.value.1
    }

    /** pb_readbyte. */
    method ReadByte() returns (r: Option<Byte>)
      requires Valid()
      modifies this
      ensures Valid() && (r.None? <==> old(left) == 0) && (r.None? ==> pos == old(pos) && left == 0)
      ensures r.Some? ==> r.value == old(Rest())[0] && Rest() == old(Rest())[1..]
      ensures pos + left == old(pos + left)
    {
      if left == 0 {
        return None;
      }
      r := Some(data[pos]);
      pos, left := pos + 1, left - 1;
    }

    /** pb_read; reading into no buffer skips the bytes. */
    method Read(n: nat) returns (r: Option<Bytes>)
      requires Valid()
      modifies this
      ensures Valid() && (r.Some? <==> n <= old(left))
      ensures r.Some? ==> r.value == old(Rest())[..n] && Rest() == old(Rest())[n..] && pos == old(pos) + n
      ensures (r.None? ==> pos == old(pos) && left == old(left)) && pos + left == old(pos + left)
    {
      if left < n {
        return None;
      }
      r := Some(data[pos..pos + n]);
      pos, left := pos + n, left - n;
    }

    method Skip(n: nat) returns (ok: bool)
      requires Valid()
      modifies this
      ensures pos + left == old(pos + left)
      ensures Valid() && (ok <==> SkipCount(old(Rest()), n).Some?)
      ensures ok ==> Rest() == SkipCount(old(Rest()), n).value
    {
      var r := Read(n);
      ok := r.Some?;
    }

    /** pb_decode_varint. */
    method DecodeVarint() returns (r: Option<Uint64>)
      requires Valid()
      modifies this
      ensures pos + left == old(pos + left)
      ensures Valid() && Has(r, ReadVarint(old(Rest())))
    {
      ghost var all, sum: nat := Rest(), 0;
      var result: Uint64, n := 0, 0;
      assert all[0..] == all;
      while true
        invariant Valid() && Reading(all, n, sum, result) && Rest() == all[n..] && pos + left == old(pos + left)
        decreases 10 - n
      {
        if n >= 10 {
          return None;
        }
        var byte := ReadByte();
        if byte.None? {
          return None;
        }
        ReadingStep(all, n, sum, result);
        assert all[n..][1..] == all[n + 1..];
        var low := (byte.value % 128) as nat;
        result := (result + Shifted(low, n)) % TWO_64;
        if byte.value < 128 {
          return Some(result);
        }
        sum := sum + Shifted(low, n);
        n := n + 1;
      }
    }

    /** pb_decode_varint32_eof, which also tells an empty stream from a bad varint. */
    method DecodeVarint32() returns (r: Option<Uint32>)
      requires Valid()
      modifies this
      ensures pos + left == old(pos + left)
      ensures Valid() && Has(r, ReadVarint32(old(Rest())))
    {
      ghost var all := Rest();
      var result: Uint32, n := 0, 0;
      while n < 10
        invariant Valid() && n <= 10 && Varint32Tail(all, 0, 0) == Varint32Tail(Rest(), n, result)
        invariant pos + left == old(pos + left)
      {
        var byte := ReadByte();
        if byte.None? {
          return None;
        }
        if n >= 5 {
          if !MayFollow(byte.value, n, result) {
            return None;
          }
        } else {
          result := (result + Shifted((byte.value % 128) as nat, n)) % TWO_32;
        }
        if byte.value < 128 {
          if n == 4 && byte.value >= 16 {
            return None;
          }
          return Some(result);
        }
        n := n + 1;
      }
      r := None;
    }

    /** pb_decode_tag. */
    method DecodeTag() returns (r: TagResult)
      requires Valid()
      modifies this
      ensures pos + left == old(pos + left)
      ensures Valid() && r == ReadTag(old(Rest())) && (r.Tag? ==> Rest() == r.rest)
    {
      if left == 0 {
        return EndOfMessage;
      }
      var temp := DecodeVarint32();
      if temp.None? {
        return BadTag;
      }
      if temp.value == 0 {
        return EndOfMessage;
      }
      r := Tag(WireOf(temp.value % 8), temp.value / 8, data[pos..pos + left]);
    }

    /** pb_skip_varint. */
    method SkipOverVarint() returns (ok: bool)
      requires Valid()
      modifies this
      ensures pos + left == old(pos + left)
      ensures Valid() && (ok <==> SkipVarint(old(Rest())).Some?)
      ensures ok ==> Rest() == SkipVarint(old(Rest())).value
    {
      ghost var all := Rest();
      while true
        invariant Valid() && SkipVarint(all) == SkipVarint(Rest()) && pos + left == old(pos + left)
        decreases left
      {
        ghost var before := left;
        var byte := ReadByte();
        if byte.None? {
          return false;
        }
        if byte.value < 128 {
          return true;
        }
      }
    }

    /** pb_skip_field. */
    method SkipOverField(w: WireType) returns (ok: bool)
      requires Valid()
      modifies this
      ensures pos + left == old(pos + left)
      ensures Valid() && (ok <==> SkipField(w, old(Rest())).Some?)
      ensures ok ==> Rest() == SkipField(w, old(Rest())).value
    {
      match w
      case WireVarint => ok := SkipOverVarint();
      case Wire64Bit => ok := Skip(8);
      case WireString =>
        var n := DecodeVarint32();
        if n.None? {
          return false;
        }
        ok := Skip(n.value);
      case Wire32Bit => ok := Skip(4);
      case WireOther => ok := false;
    }

    /** pb_make_string_substream: the next bytes as a stream of their own. */
    method MakeSubstream() returns (r: Option<InputStream>)
      requires Valid()
      modifies this
      ensures Valid() && (r.Some? <==> ReadString(old(Rest())).Some?) && pos + left <= old(pos + left)
      ensures r.Some? ==>
                && fresh(r.value) && r.value.Valid() && r.value.data == data
                && r.value.pos == pos && r.value.pos + r.value.left + left == old(pos + left)
                && r.value.Rest() == ReadString(old(Rest())).value.0
                && data[pos + r.value.left..pos + r.value.left + left] == ReadString(old(Rest())).value.1
    {
      var size := DecodeVarint32();
      if size.None? || left < size.value {
        return None;
      }
      var substream := new InputStream(data, pos, size.value);
      left := left - size.value;
      r := Some(substream);
    }

    /** pb_close_string_substream: on past what is left of the substream. */
    method CloseSubstream(substream: InputStream)
      requires substream != this && substream.Valid() && substream.data == data
      requires substream.pos + substream.left + left <= |data|
      modifies this, substream
      ensures Valid() && Rest() == data[old(substream.pos + substream.left)..old(substream.pos + substream.left + left)]
      ensures pos + left == old(substream.pos + substream.left + left)
    {
      var _ := substream.Read(substream.left);
      pos := substream.pos;
    }
  }

  /** The numeric decoders, which also check that the number fits its member. */
  method DecodeNumber(stream: InputStream, l: LType) returns (r: Option<Datum>)
    requires stream.Valid() && IsPackable(l)
    modifies stream
    ensures stream.Valid() && stream.pos + stream.left == old(stream.pos + stream.left)
    ensures stream.Has(r, ReadNumber(l, old(stream.Rest())))
  {
    match l
    case LBool =>
      var v := stream.DecodeVarint32();
      r := if v.Some? then Some(VBool(v.value != 0)) else None;
    case LVarint(w) =>
      var v := stream.DecodeVarint();
      if v.None? {
        return None;
      }
      var svalue := if w.EightBytes? then Signed64(v.value) else Signed32(v.value);
      r := SignedMember(w, svalue);
    case LUVarint(w) =>
      var v := stream.DecodeVarint();
      if v.None? {
        return None;
      }
      r := UnsignedMember(w, v.value);
    case LSVarint(w) =>
      var v := stream.DecodeVarint();
      if v.None? {
        return None;
      }
      r := SignedMember(w, UnZigZag(v.value));
    case LFixed32 =>
      ghost var all := stream.Rest();
      var bytes := stream.Read(4);
      if bytes.None? {
        return None;
      }
      FirstFour(all);
      r := Some(VNumber(DecodeFixed32(bytes.value)));
    case LFixed64 =>
      ghost var all := stream.Rest();
      var bytes := stream.Read(8);
      if bytes.None? {
        return None;
      }
      FirstEight(all);
      r := Some(VNumber(DecodeFixed64(bytes.value)));
  }

  lemma FirstFour(data: Bytes)
    requires |data| >= 4
    ensures DecodeFixed32(data[..4]) == DecodeFixed32(data)
  {
  }

  lemma FirstEight(data: Bytes)
    requires |data| >= 8
    ensures DecodeFixed64(data[..8]) == DecodeFixed64(data)
  {
    assert data[..8][4..] == data[4..8];
    assert DecodeFixed32(data[..8]) == DecodeFixed32(data) && DecodeFixed32(data[4..8]) == DecodeFixed32(data[4..]);
  }

  /** pb_dec_bytes, pb_dec_string and pb_dec_fixed_length_bytes: the size is checked before anything is read. */
  method DecodeString(stream: InputStream, l: LType) returns (r: Option<Datum>)
    requires stream.Valid() && !IsPackable(l) && !l.LSubmessage?
    modifies stream
    ensures stream.Valid() && stream.pos + stream.left == old(stream.pos + stream.left)
    ensures var parsed := ReadString(old(stream.Rest()));
            stream.Has(r, if parsed.None? then None else Attach(StringMember(l, parsed.value.0), parsed.value.1))
  {
    var size := stream.DecodeVarint32();
    if size.None? {
      return None;
    }
    match l
    case LBytes(dataSize) =>
      if size.value + BYTES_HEADER > dataSize {
        return None;
      }
      var s := stream.Read(size.value);
      r := if s.Some? then Some(VBytes(s.value)) else None;
    case LString(dataSize) =>
      if size.value + 1 > dataSize {
        return None;
      }
      var s := stream.Read(size.value);
      r := if s.Some? then Some(VString(Terminated(s.value))) else None;
    case LFixedLengthBytes(dataSize) =>
      if size.value == 0 {
        assert stream.Rest()[..0] == [] && stream.Rest()[0..] == stream.Rest();
        return Some(VBytes(Zeros(dataSize)));
      }
      if size.value != dataSize {
        return None;
      }
      var s := stream.Read(dataSize);
      r := if s.Some? then Some(VBytes(s.value)) else None;
  }

  /** One value; a submessage is decoded on a substream, and what it leaves there is passed over. */
  method DecodeValue(stream: InputStream, l: LType, held: Datum) returns (r: Option<Datum>)
    requires stream.Valid() && IsFieldType(l)
    modifies stream
    ensures stream.Valid() && stream.pos + stream.left <= old(stream.pos + stream.left)
    ensures r.Some? ==> stream.pos + stream.left == old(stream.pos + stream.left)
    ensures stream.Has(r, ReadValue(l, old(stream.Rest()), held))
    decreases l, 0
  {
    if IsPackable(l) {
      r := DecodeNumber(stream, l);
      return;
    }
    if !l.LSubmessage? {
      r := DecodeString(stream, l);
      return;
    }
    var start := if held.VMessage? && |held.m.slots| == |l.fields| then held.m else DefaultMessage(l.fields);
    var m := DecodeSubmessage(stream, l.fields, start);
    r := if m.Some? then Some(VMessage(m.value)) else None;
  }

  /** pb_dec_submessage. */
  method DecodeSubmessage(stream: InputStream, fields: seq<Field>, start: Message) returns (r: Option<Message>)
    requires stream.Valid() && IsDescriptor(fields) && |start.slots| == |fields|
    modifies stream
    ensures stream.Valid() && stream.pos + stream.left <= old(stream.pos + stream.left)
    ensures r.Some? ==> stream.pos + stream.left == old(stream.pos + stream.left)
    ensures var parsed := ReadString(old(stream.Rest()));
            stream.Has(r, if parsed.None? then None else
                             var m := ReadMessage(fields, parsed.value.0, start);
                             if m.None? then None else Some((m.value, parsed.value.1)))
    decreases fields, 3
  {
    var substream := stream.MakeSubstream();
    if substream.None? {
      return None;
    }
    r := DecodeMessage(substream.value, fields, start);
    stream.CloseSubstream(substream.value);
  }

  /** A packed array, item after item as long as there is room and anything is left. */
  method DecodePacked(stream: InputStream, l: LType, arraySize: nat, items: seq<Datum>) returns (r: Option<seq<Datum>>)
    requires stream.Valid() && IsPackable(l)
    modifies stream
    ensures stream.Valid() && stream.pos + stream.left <= old(stream.pos + stream.left)
    ensures r.Some? ==> stream.pos + stream.left == old(stream.pos + stream.left)
    ensures var parsed := ReadString(old(stream.Rest()));
            stream.Has(r, if parsed.None? then None else
                             var all := ReadPacked(l, arraySize, parsed.value.0, items);
                             if all.None? then None else Some((all.value, parsed.value.1)))
  {
    var substream := stream.MakeSubstream();
    if substream.None? {
      return None;
    }
    r := DecodePackedItems(substream.value, l, arraySize, items);
    if r.Some? {
      stream.CloseSubstream(substream.value);
    }
  }

  method DecodePackedItems(substream: InputStream, l: LType, arraySize: nat, items: seq<Datum>)
    returns (r: Option<seq<Datum>>)
    requires substream.Valid() && IsPackable(l)
    modifies substream
    ensures substream.Valid() && substream.pos + substream.left == old(substream.pos + substream.left)
    ensures r == ReadPacked(l, arraySize, old(substream.Rest()), items)
  {
    var all := items;
    while substream.left > 0 && |all| < arraySize
      invariant substream.Valid() && substream.pos + substream.left == old(substream.pos + substream.left)
      invariant ReadPacked(l, arraySize, old(substream.Rest()), items)
                  == ReadPacked(l, arraySize, substream.Rest(), all)
      decreases substream.left
    {
      ghost var before := substream.Rest();
      var v := DecodeNumber(substream, l);
      if v.None? {
        return None;
      }
      assert |substream.Rest()| < |before|;
      all := all + [v.value];
    }
    if substream.left != 0 {
      return None;
    }
    r := Some(all);
  }

  /** decode_static_field. */
  method DecodeField(stream: InputStream, f: Field, i: nat, wire: WireType, m: Message) returns (r: Option<Message>)
    requires stream.Valid() && IsFieldDescriptor(f) && i < |m.slots|
    modifies stream
    ensures stream.Valid() && stream.pos + stream.left <= old(stream.pos + stream.left)
    ensures r.Some? ==> stream.pos + stream.left == old(stream.pos + stream.left)
    ensures stream.Has(r, ReadField(f, i, wire, old(stream.Rest()), m))
    decreases f, 1
  {
    match m.slots[i]
    case Items(items) =>
      if !f.htype.Repeated? {
        return None;
      }
      if wire == WireString && IsPackable(f.ltype) {
        var all := DecodePacked(stream, f.ltype, f.htype.arraySize, items);
        r := if all.Some? then Some(SetSlot(m, i, Items(all.value))) else None;
      } else {
        if |items| >= f.htype.arraySize {
          return None;
        }
        var v := DecodeValue(stream, f.ltype, ItemDefault(f));
        r := if v.Some? then Some(SetSlot(m, i, Items(items + [v.value]))) else None;
      }
    case InUnion =>
      if !f.htype.OneOf? {
        return None;
      }
      var u := f.htype.union;
      var held := if u in m.unions && m.unions[u].tag == f.tag then m.unions[u].v else ItemDefault(f);
      var v := DecodeValue(stream, f.ltype, held);
      r := if v.Some? then Some(m.(unions := m.unions[u := Choice(f.tag, v.value)])) else None;
    case _ =>
      var v := DecodeValue(stream, f.ltype, m.slots[i].v);
      r := if v.Some? then Some(SetSlot(m, i, Updated(m.slots[i], v.value))) else None;
  }

  // ---------------------------------------------------------------- the required fields seen

  /** A word of the bitmap, lowest bit first. */
  type Word = bits: seq<bool> | |bits| == 32 witness seq(32, i => false)

  /** The bitmap says which required fields have been seen. */
  ghost predicate Records(fieldsSeen: seq<Word>, seen: set<nat>) {
    && |fieldsSeen| == 2
    && (forall k | k in seen :: k < MAX_REQUIRED_FIELDS)
    && (forall k {:trigger k in seen} | 0 <= k < MAX_REQUIRED_FIELDS :: k in seen <==> fieldsSeen[k / 32][k % 32])
  }

  method RecordField(fieldsSeen: seq<Word>, index: nat, ghost seen: set<nat>) returns (r: seq<Word>)
    requires Records(fieldsSeen, seen) && index < MAX_REQUIRED_FIELDS
    ensures Records(r, seen + {index})
  {
    var word: seq<bool> := fieldsSeen[index / 32];
    word := word[index % 32 := true];
    r := fieldsSeen[index / 32 := word];
    forall k | 0 <= k < MAX_REQUIRED_FIELDS
      ensures k in seen + {index} <==> r[k / 32][k % 32]
    {
      assert k in seen <==> fieldsSeen[k / 32][k % 32];
      assert k == k / 32 * 32 + k % 32 && index == index / 32 * 32 + index % 32;
    }
  }

  function LowBits(n: nat): Word
    requires n <= 32
  {
    seq(32, i => i < n)
  }

  /** Whole words against all bits, then the bits that remain: the bitmap holds nothing else. */
  method AllRecorded(fieldsSeen: seq<Word>, count: nat, ghost seen: set<nat>) returns (ok: bool)
    requires Records(fieldsSeen, seen) && count <= MAX_REQUIRED_FIELDS && forall k | k in seen :: k < count
    ensures ok <==> forall k | 0 <= k < count :: k in seen
  {
    for i := 0 to count / 32
      invariant forall k | 0 <= k < 32 * i :: k in seen
    {
      if fieldsSeen[i] != LowBits(32) {
        var j :| 0 <= j < 32 && !fieldsSeen[i][j];
        assert (32 * i + j) / 32 == i && (32 * i + j) % 32 == j;
        assert 32 * i + j !in seen;
        return false;
      }
      forall k | 32 * i <= k < 32 * (i + 1)
        ensures k in seen
      {
        assert fieldsSeen[k / 32][k % 32] == LowBits(32)[k % 32];
      }
    }
    var left := count % 32;
    if left != 0 && fieldsSeen[count / 32] != LowBits(left) {
      var j :| 0 <= j < 32 && fieldsSeen[count / 32][j] != LowBits(left)[j];
      var k := 32 * (count / 32) + j;
      assert k / 32 == count / 32 && k % 32 == j;
      assert k in seen <==> fieldsSeen[k / 32][k % 32];
      return false;
    }
    forall k | 0 <= k < count
      ensures k in seen
    {
      if k >= 32 * (count / 32) {
        assert fieldsSeen[k / 32][k % 32] == LowBits(left)[k % 32];
      }
    }
    ok := true;
  }

  /** pb_decode_noinit. */
  method DecodeMessage(stream: InputStream, fields: seq<Field>, m: Message) returns (r: Option<Message>)
    requires stream.Valid() && IsDescriptor(fields) && |m.slots| == |fields|
    modifies stream
    ensures stream.Valid() && stream.pos + stream.left <= old(stream.pos + stream.left)
    ensures r.Some? ==> stream.pos + stream.left == old(stream.pos + stream.left)
    ensures r == ReadMessage(fields, old(stream.Rest()), m)
    decreases fields, 2
  {
    var iter := new FieldIterator.Begin(fields);
    var fieldsSeen: seq<Word> := [LowBits(0), LowBits(0)];
    ghost var all, seen: set<nat>, left := stream.Rest(), {}, stream.pos + stream.left;
    var msg, more := m, true;
    while more && stream.left > 0
      invariant stream.Valid() && stream.pos + stream.left == left && iter.Valid() && iter.fields == fields
      invariant |msg.slots| == |fields| && Records(fieldsSeen, seen)
      invariant forall k | k in seen :: k < RequiredBefore(fields, |fields|)
      invariant if more then ReadFields(fields, all, State(m, {}))
                  == ReadFields(fields, stream.Rest(), State(msg, seen))
                else ReadFields(fields, all, State(m, {})) == Some(State(msg, seen))
      decreases more, stream.left
    {
      var tag := stream.DecodeTag();
      if tag.BadTag? {
        return None;
      }
      if tag.EndOfMessage? {
        more := false;
      } else {
        var next: Option<Message>;
        next, fieldsSeen, seen := DecodeTagged(stream, iter, tag.wire, tag.tag, msg, fieldsSeen, seen);
        if next.None? {
          return None;
        }
        msg := next.value;
      }
    }
    var count := CountRequired(iter);
    var ok := AllRecorded(fieldsSeen, Smaller(count, MAX_REQUIRED_FIELDS), seen);
    r := if ok then Some(msg) else None;
  }

  /** A field of the descriptor, wherever the iterator is, or something to skip. */
  method DecodeTagged(stream: InputStream, iter: FieldIterator, wire: WireType, tag: nat, m: Message,
                      fieldsSeen: seq<Word>, ghost seen: set<nat>)
    returns (r: Option<Message>, fieldsSeen': seq<Word>, ghost seen': set<nat>)
    requires stream.Valid() && iter.Valid() && IsDescriptor(iter.fields)
    requires |m.slots| == |iter.fields| && Records(fieldsSeen, seen)
    requires forall k | k in seen :: k < RequiredBefore(iter.fields, |iter.fields|)
    modifies stream, iter
    ensures stream.Valid() && iter.Valid() && stream.pos + stream.left <= old(stream.pos + stream.left)
    ensures r.Some? ==> stream.pos + stream.left == old(stream.pos + stream.left)
    ensures stream.Has(if r.Some? then Some(State(r.value, seen')) else None,
                       ReadTagged(iter.fields, wire, tag, old(stream.Rest()), State(m, seen)))
    ensures Records(fieldsSeen', seen') && forall k | k in seen' :: k < RequiredBefore(iter.fields, |iter.fields|)
    decreases iter.fields, 1
  {
    fieldsSeen', seen' := fieldsSeen, seen;
    var found := iter.Find(tag);
    if !found {
      var ok := stream.SkipOverField(wire);
      r := if ok then Some(m) else None;
    } else if iter.fields == [] {
      // The terminator reads as a required bool; nothing looks at what it is decoded to, nor at its bit.
      var v := stream.DecodeVarint32();
      r := if v.Some? then Some(m) else None;
    } else {
      r, fieldsSeen', seen' := DecodeFound(stream, iter, wire, m, fieldsSeen, seen);
    }
  }

  /** The field that the iterator has found. */
  method DecodeFound(stream: InputStream, iter: FieldIterator, wire: WireType, m: Message, fieldsSeen: seq<Word>,
                     ghost seen: set<nat>)
    returns (r: Option<Message>, fieldsSeen': seq<Word>, ghost seen': set<nat>)
    requires stream.Valid() && iter.Valid() && IsDescriptor(iter.fields) && iter.fields != []
    requires |m.slots| == |iter.fields| && Records(fieldsSeen, seen)
    requires forall k | k in seen :: k < RequiredBefore(iter.fields, |iter.fields|)
    modifies stream
    ensures stream.Valid() && stream.pos + stream.left <= old(stream.pos + stream.left)
    ensures r.Some? ==> stream.pos + stream.left == old(stream.pos + stream.left)
    ensures stream.Has(r, ReadField(iter.fields[iter.pos], iter.pos, wire, old(stream.Rest()), m))
    ensures seen' == Seen(iter.fields, iter.pos, seen) && Records(fieldsSeen', seen')
    ensures forall k | k in seen' :: k < RequiredBefore(iter.fields, |iter.fields|)
    ensures HasTag(iter.fields, iter.Tag()) && IndexOf(iter.fields, iter.Tag()) == iter.pos
    decreases iter.fields, 0
  {
    FoundAt(iter.fields, iter.pos);
    RequiredGrows(iter.fields, iter.pos, |iter.fields|);
    fieldsSeen' := fieldsSeen;
    if iter.fields[iter.pos].htype.Required? && iter.requiredFieldIndex < MAX_REQUIRED_FIELDS {
      fieldsSeen' := RecordField(fieldsSeen, iter.requiredFieldIndex, seen);
    }
    seen' := Seen(iter.fields, iter.pos, seen);
    r := DecodeField(stream, iter.fields[iter.pos], iter.pos, wire, m);
  }

  lemma {:induction false} RequiredGrows(fields: seq<Field>, i: nat, n: nat)
    requires i < n <= |fields|
    ensures RequiredBefore(fields, i) + (if fields[i].htype.Required? then 1 else 0) <= RequiredBefore(fields, n)
  {
    if i < n - 1 {
      RequiredGrows(fields, i, n - 1);
    }
  }

  /** On to the last field, whose number among the required ones tells how many there are. */
  method CountRequired(iter: FieldIterator) returns (count: nat)
    requires iter.Valid() && IsDescriptor(iter.fields)
    modifies iter
    ensures count == RequiredBefore(iter.fields, |iter.fields|)
  {
    count := iter.requiredFieldIndex;
    ghost var last := iter.pos;
    var lastRequired := iter.pos >= |iter.fields| || iter.fields[iter.pos].htype.Required?;
    var more := iter.Next();
    while more
      invariant iter.Valid() && (more ==> iter.fields != [] && iter.pos == last + 1 < |iter.fields|)
      invariant iter.fields != [] ==> last < |iter.fields| && count == RequiredBefore(iter.fields, last)
      invariant iter.fields != [] ==> lastRequired == iter.fields[last].htype.Required?
      invariant iter.fields == [] ==> count == 0
      invariant !more && iter.fields != [] ==> last == |iter.fields| - 1
      decreases |iter.fields| - last, more
    {
      count := iter.requiredFieldIndex;
      last := iter.pos;
      lastRequired := iter.fields[iter.pos].htype.Required?;
      more := iter.Next();
    }
    if lastRequired && iter.Tag() != 0 {
      count := count + 1;
    }
  }

  /** pb_decode. */
  method DecodeFromBuffer(fields: seq<Field>, data: Bytes) returns (r: Option<Message>)
    requires IsDescriptor(fields)
    ensures r == Decode(fields, data)
  {
    var stream := new InputStream(data, 0, |data|);
    assert stream.Rest() == data;
    r := DecodeMessage(stream, fields, DefaultMessage(fields));
  }
}
