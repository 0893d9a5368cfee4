/**
 The Protocol Buffers wire format as nanopb writes and reads it: base-128 varints, zigzag, fixed-width numbers, tags.
 Parsers give the value and the bytes left over (pb_encode.c, pb_decode.c).
 */
module NanopbWire {
  import opened Coding
  import opened Keys
  import opened Reads
  import Slices

  type Bytes = seq<Byte>

  /** The size of an integer member of a message struct. */
  datatype Width = OneByte | TwoBytes | FourBytes | EightBytes

  function Half(w: Width): nat {
    match w
    case OneByte => 0x80
    case TwoBytes => 0x8000
    case FourBytes => 0x8000_0000
    case EightBytes => 0x8000_0000_0000_0000
  }

  predicate FitsSigned(w: Width, n: int)
    ensures FitsSigned(w, n) ==> -0x8000_0000_0000_0000 <= n < 0x8000_0000_0000_0000
  {
    -(Half(w) as int) <= n < Half(w)
  }

  predicate FitsUnsigned(w: Width, n: int)
    ensures FitsUnsigned(w, n) ==> 0 <= n < TWO_64
  {
    0 <= n < 2 * Half(w)
  }

  // ---------------------------------------------------------------- two's complement and zigzag

  /** (uint64_t)n */
  function Unsigned64(n: int): Uint64
    requires FitsSigned(EightBytes, n)
  {
    if n < 0 then n + TWO_64 else n
  }

  /** (int64_t)v */
  function Signed64(v: Uint64): (n: int)
    ensures FitsSigned(EightBytes, n)
  {
    if v < TWO_64 / 2 then v else v - TWO_64
  }

  /** (int32_t)v */
  function Signed32(v: Uint64): (n: int)
    ensures FitsSigned(FourBytes, n)
  {
    if v % TWO_32 < TWO_32 / 2 then v % TWO_32 else v % TWO_32 - TWO_32
  }

  /** value << 1, all bits flipped if the value is negative. */
  function ZigZag(n: int): Uint64
    requires FitsSigned(EightBytes, n)
  {
    if n < 0 then TWO_64 - 1 - (2 * Unsigned64(n)) % TWO_64 else 2 * n
  }

  function UnZigZag(v: Uint64): (n: int)
    ensures FitsSigned(EightBytes, n)
  {
    if v % 2 == 1 then Signed64(TWO_64 - 1 - v / 2) else Signed64(v / 2)
  }

  lemma ZigZagRoundTrip(n: int)
    requires FitsSigned(EightBytes, n)
    ensures UnZigZag(ZigZag(n)) == n
    ensures 0 <= n ==> ZigZag(n) == 2 * n
    ensures n < 0 ==> ZigZag(n) == -2 * n - 1
  {
    if n < 0 {
      assert 2 * Unsigned64(n) == (2 * n + TWO_64) + TWO_64;
      assert (2 * Unsigned64(n)) % TWO_64 == 2 * n + TWO_64;
    }
  }

  lemma SignedRoundTrip(n: int)
    requires FitsSigned(EightBytes, n)
    ensures Signed64(Unsigned64(n)) == n
    ensures FitsSigned(FourBytes, n) ==> Signed32(Unsigned64(n)) == n
  {
    if FitsSigned(FourBytes, n) && n < 0 {
      assert Unsigned64(n) == (TWO_32 - 1) * TWO_32 + (n + TWO_32);
      Remainder(TWO_32 - 1, n + TWO_32);
    }
  }

  lemma Remainder(q: nat, r: nat)
    requires r < TWO_32
    ensures (q * TWO_32 + r) % TWO_32 == r
  {
  }

  // ---------------------------------------------------------------- varints

  /** The varint before the high bit of its last byte is cleared. */
  function Marked(v: nat): (bytes: Bytes)
    ensures v > 0 ==> |bytes| > 0 && bytes[|bytes| - 1] >= 128
  {
    if v == 0 then [] else [(v % 128 + 128) as Byte] + Marked(v / 128)
  }

  function Unmarked(bytes: Bytes): Bytes
    requires |bytes| > 0 && bytes[|bytes| - 1] >= 128
  {
    bytes[..|bytes| - 1] + [bytes[|bytes| - 1] - 128]
  }

  lemma {:induction false} MarkedIsVarint(v: nat)
    requires v > 0
    ensures Unmarked(Marked(v)) == Varint(v)
  {
    if v >= 128 {
      MarkedIsVarint(v / 128);
      assert Unmarked(Marked(v)) == [(v % 128 + 128) as Byte] + Unmarked(Marked(v / 128));
    } else {
      assert Marked(v) == [(v % 128 + 128) as Byte] + Marked(0);
    }
  }

  lemma MarkedUnfolds(buffer: Bytes, v: nat)
    requires v > 0
    ensures buffer + Marked(v) == (buffer + [(v % 128 + 128) as Byte]) + Marked(v / 128)
  {
  }

  /** Seven bits at a time with the high bit set, which the last byte then loses again. */
  method EncodeVarint(value: nat) returns (buffer: Bytes)
    ensures buffer == Varint(value) && (value < TWO_64 ==> |buffer| <= 10)
  {
    if value < TWO_64 {
      Powers();
      VarintLength(value, 10);
    }
    if value <= 0x7F {
      return [value as Byte];
    }
    buffer := [];
    var v: nat := value;
    while v != 0
      invariant buffer + Marked(v) == Marked(value)
    {
      MarkedUnfolds(buffer, v);
      buffer := buffer + [(v % 128 + 128) as Byte];
      v := v / 128;
    }
    assert buffer == Marked(value);
    MarkedIsVarint(value);
    buffer := buffer[..|buffer| - 1] + [buffer[|buffer| - 1] - 128];
  }

  /** pb_decode_varint: up to ten bytes, the value cut off at 64 bits. */
  function ReadVarint(data: Bytes): (r: Option<(Uint64, Bytes)>)
    ensures r.Some? ==> |r.value.1| < |data|
  {
    match ParseVarint(data, 10)
    case None => None
    case Some((v, n)) => Some((v % TWO_64, data[n..]))
  }

  lemma VarintIsRead(v: Uint64, rest: Bytes)
    ensures ReadVarint(Varint(v) + rest) == Some((v, rest))
  {
    Powers();
    VarintLength(v, 10);
    VarintRoundTrip(v, rest, 10);
    Slices.DropFront(Varint(v), rest);
    Modulo64(v);
  }

  /** What the last of n bytes may be beyond 32 bits: nothing, or more of the sign. */
  predicate MayFollow(byte: Byte, n: nat, result: Uint32) {
    byte % 128 == 0 || (result >= TWO_32 / 2 && byte == if n < 9 then 0xFF else 0x01)
  }

  /** The bytes of a 32-bit varint from the n-th on, the ones before having given result. */
  function Varint32Tail(data: Bytes, n: nat, result: Uint32): (r: Option<(Uint32, Bytes)>)
    ensures r.Some? ==> |r.value.1| < |data|
    decreases 10 - n
  {
    if data == [] || n >= 10 then None
    else
      var byte := data[0];
      if n >= 5 && !MayFollow(byte, n, result) then None
      else
        var next := if n >= 5 then result else (result + Shifted((byte % 128) as nat, n)) % TWO_32;
        if byte >= 128 then Varint32Tail(data[1..], n + 1, next)
        else if n == 4 && byte >= 16 then None
        else Some((next, data[1..]))
  }

  /** pb_decode_varint32, on varints of up to ten bytes. */
  function ReadVarint32(data: Bytes): (r: Option<(Uint32, Bytes)>)
    ensures r.Some? ==> |r.value.1| < |data|
  {
    Varint32Tail(data, 0, 0)
  }

  lemma ShiftedSum(v: nat, n: nat)
    ensures Shifted(v, n) == Shifted(v % 128, n) + Shifted(v / 128, n + 1)
  {
    assert v == v % 128 + v / 128 * 128;
    calc {
      Shifted(v, n);
      (v % 128 + v / 128 * 128) * Power128(n);
      v % 128 * Power128(n) + v / 128 * 128 * Power128(n);
    }
  }

  lemma SmallShift(v: nat, n: nat)
    requires n >= 5 && v > 0
    ensures Shifted(v, n) >= TWO_32
  {
    Powers();
    PowerGrows(5, n);
    assert v * Power128(n) >= Power128(n);
  }

  lemma {:induction false} PowerGrows(m: nat, n: nat)
    requires m <= n
    ensures Power128(m) <= Power128(n)
  {
    if m < n {
      PowerGrows(m, n - 1);
    }
  }

  lemma TailGoesOn(byte: Byte, data: Bytes, n: nat, result: Uint32, low: nat)
    requires n < 5 && byte >= 128 && low == (byte - 128) as nat && result + Shifted(low, n) < TWO_32
    ensures Varint32Tail([byte] + data, n, result) == Varint32Tail(data, n + 1, result + Shifted(low, n))
  {
    assert ([byte] + data)[1..] == data;
    assert (byte % 128) as nat == low;
    Modulo32(result + Shifted(low, n));
  }

  lemma TailEnds(byte: Byte, data: Bytes, n: nat, result: Uint32)
    requires n < 5 && byte < 128 && result + Shifted(byte as nat, n) < TWO_32
    ensures Varint32Tail([byte] + data, n, result) == Some((result + Shifted(byte as nat, n), data))
  {
    assert ([byte] + data)[1..] == data;
    assert (byte % 128) as nat == byte as nat;
    Modulo32(result + Shifted(byte as nat, n));
    if n == 4 {
      Powers();
    }
  }

  lemma {:induction false} TailIsRead(v: nat, n: nat, result: Uint32, rest: Bytes)
    requires n < 5 && result + Shifted(v, n) < TWO_32
    ensures Varint32Tail(Varint(v) + rest, n, result) == Some((result + Shifted(v, n), rest))
    decreases v
  {
    VarintUnfolds(v);
    if v >= 128 {
      ShiftedSum(v, n);
      var byte := (v % 128 + 128) as Byte;
      Slices.Associates([byte], Varint(v / 128), rest);
      TailGoesOn(byte, Varint(v / 128) + rest, n, result, v % 128);
      if n == 4 {
        SmallShift(v / 128, 5);
      }
      TailIsRead(v / 128, n + 1, result + Shifted(v % 128, n), rest);
    } else {
      TailEnds(v as Byte, rest, n, result);
    }
  }

  lemma Varint32IsRead(v: Uint32, rest: Bytes)
    ensures ReadVarint32(Varint(v) + rest) == Some((v, rest))
  {
    TailIsRead(v, 0, 0, rest);
    assert Shifted(v, 0) == v;
  }

  // ---------------------------------------------------------------- tags

  datatype WireType = WireVarint | Wire64Bit | WireString | Wire32Bit | WireOther

  function WireNumber(w: WireType): (n: nat)
    requires w != WireOther
    ensures n < 8 && WireOf(n) == w
  {
    match w
    case WireVarint => 0
    case Wire64Bit => 1
    case WireString => 2
    case Wire32Bit => 5
  }

  function WireOf(n: nat): WireType {
    if n == 0 then WireVarint
    else if n == 1 then Wire64Bit
    else if n == 2 then WireString
    else if n == 5 then Wire32Bit
    else WireOther
  }

  /** Field numbers are 29 bits wide. */
  const MAX_TAG: nat := 0x1FFF_FFFF

  function TagBytes(w: WireType, tag: nat): Bytes
    requires w != WireOther
  {
    Varint(tag * 8 + WireNumber(w))
  }

  /** Tags of one byte: the field number above the wire type's three bits. */
  lemma SmallTags(tag: nat)
    requires tag < 16
    ensures TagBytes(WireVarint, tag) == [(tag * 8) as Byte] && TagBytes(Wire64Bit, tag) == [(tag * 8 + 1) as Byte]
    ensures TagBytes(WireString, tag) == [(tag * 8 + 2) as Byte] && TagBytes(Wire32Bit, tag) == [(tag * 8 + 5) as Byte]
  {
  }

  datatype TagResult = EndOfMessage | BadTag | Tag(wire: WireType, tag: nat, rest: Bytes)

  /** A tag, or the zero byte that ends a message. */
  function ReadTag(data: Bytes): (r: TagResult)
    ensures r.Tag? ==> |r.rest| < |data|
  {
    if data == [] then EndOfMessage
    else
      match ReadVarint32(data)
      case None => BadTag
      case Some((temp, rest)) => if temp == 0 then EndOfMessage else Tag(WireOf(temp % 8), temp / 8, rest)
  }

  lemma TagDigits(tag: nat, w: nat)
    requires w < 8
    ensures (tag * 8 + w) % 8 == w && (tag * 8 + w) / 8 == tag
  {
  }

  lemma TagIsRead(w: WireType, tag: nat, rest: Bytes)
    requires 1 <= tag <= MAX_TAG && w != WireOther
    ensures ReadTag(TagBytes(w, tag) + rest) == Tag(w, tag, rest)
  {
    Varint32IsRead(tag * 8 + WireNumber(w), rest);
    TagDigits(tag, WireNumber(w));
  }

  /** The bytes after a varint of any length. */
  function SkipVarint(data: Bytes): (r: Option<Bytes>)
    ensures r.Some? ==> |r.value| < |data|
  {
    if data == [] then None
    else if data[0] >= 128 then SkipVarint(data[1..])
    else Some(data[1..])
  }

  function SkipCount(data: Bytes, n: nat): (r: Option<Bytes>)
    ensures r.Some? ==> |r.value| <= |data|
  {
    if |data| < n then None else Some(data[n..])
  }

  /** pb_skip_field. */
  function SkipField(w: WireType, data: Bytes): (r: Option<Bytes>)
    ensures r.Some? ==> |r.value| <= |data|
  {
    match w
    case WireVarint => SkipVarint(data)
    case Wire64Bit => SkipCount(data, 8)
    case WireString =>
      (match ReadVarint32(data)
       case None => None
       case Some((n, rest)) => SkipCount(rest, n))
    case Wire32Bit => SkipCount(data, 4)
    case WireOther => None
  }

  // ---------------------------------------------------------------- lengths and what they count

  /** A length and that many bytes. */
  function ReadString(data: Bytes): (r: Option<(Bytes, Bytes)>)
    ensures r.Some? ==> |r.value.0| + |r.value.1| < |data|
  {
    match ReadVarint32(data)
    case None => None
    case Some((n, rest)) => if |rest| < n then None else Some((rest[..n], rest[n..]))
  }

  lemma StringIsRead(s: Bytes, rest: Bytes)
    requires |s| < TWO_32
    ensures ReadString(Prefixed(s) + rest) == Some((s, rest))
  {
    Slices.Associates(Varint(|s|), s, rest);
    Varint32IsRead(|s|, s + rest);
    Slices.DropFront(s, rest);
  }
}
