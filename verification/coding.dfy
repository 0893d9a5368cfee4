/**
 Fixed-width and variable-width integers, and length-prefixed slices (coding.cc).
 */
module Coding {
  import opened Keys
  import opened Reads
  import Slices

  const TWO_32: nat := 0x1_0000_0000
  const TWO_64: nat := 0x1_0000_0000_0000_0000

  type Uint32 = n: nat | n < TWO_32
  type Uint64 = n: nat | n < TWO_64

  /** A 32-bit number as it is stored. */
  type Fixed32 = s: seq<Byte> | |s| == 4 witness [0, 0, 0, 0]

  // ---------------------------------------------------------------- fixed width, little-endian

  function EncodeFixed32(v: Uint32): (bytes: seq<Byte>)
    ensures |bytes| == 4
  {
    [(v % 0x100) as Byte, (v / 0x100 % 0x100) as Byte, (v / 0x1_0000 % 0x100) as Byte, (v / 0x100_0000) as Byte]
  }

  function DecodeFixed32(bytes: seq<Byte>): Uint32
    requires |bytes| >= 4
  {
    bytes[0] as nat + bytes[1] as nat * 0x100 + bytes[2] as nat * 0x1_0000 + bytes[3] as nat * 0x100_0000
  }

  lemma Digits(v: nat)
    ensures v % 0x100 + v / 0x100 % 0x100 * 0x100 + v / 0x1_0000 % 0x100 * 0x1_0000 + v / 0x100_0000 * 0x100_0000 == v
  {
    var v8, v16, v24 := v / 0x100, v / 0x1_0000, v / 0x100_0000;
    assert v16 == v8 / 0x100 && v24 == v16 / 0x100;
    assert v == v8 * 0x100 + v % 0x100;
    assert v8 == v16 * 0x100 + v8 % 0x100;
    assert v16 == v24 * 0x100 + v16 % 0x100;
  }

  lemma Fixed32RoundTrip(v: Uint32, rest: seq<Byte>)
    ensures DecodeFixed32(EncodeFixed32(v) + rest) == v
  {
    var bytes, all := EncodeFixed32(v), EncodeFixed32(v) + rest;
    assert all[0] == bytes[0] && all[1] == bytes[1] && all[2] == bytes[2] && all[3] == bytes[3];
    Digits(v);
  }

  function EncodeFixed64(v: Uint64): (bytes: seq<Byte>)
    ensures |bytes| == 8
  {
    EncodeFixed32(v % TWO_32) + EncodeFixed32(v / TWO_32)
  }

  function DecodeFixed64(bytes: seq<Byte>): Uint64
    requires |bytes| >= 8
  {
    DecodeFixed32(bytes) + DecodeFixed32(bytes[4..]) * TWO_32
  }

  lemma Fixed64RoundTrip(v: Uint64, rest: seq<Byte>)
    ensures DecodeFixed64(EncodeFixed64(v) + rest) == v
  {
    var lo, hi := EncodeFixed32(v % TWO_32), EncodeFixed32(v / TWO_32);
    assert EncodeFixed64(v) + rest == lo + (hi + rest);
    assert (EncodeFixed64(v) + rest)[4..] == hi + rest;
    Fixed32RoundTrip(v % TWO_32, hi + rest);
    Fixed32RoundTrip(v / TWO_32, rest);
  }

  /** What bytes stand for, least significant first. */
  function LeastFirst(bytes: seq<Byte>): nat {
    if bytes == [] then 0 else bytes[0] as nat + 0x100 * LeastFirst(bytes[1..])
  }

  lemma OneByteMore(x: Byte, bytes: seq<Byte>)
    ensures LeastFirst([x] + bytes) == x as nat + 0x100 * LeastFirst(bytes)
  {
    assert ([x] + bytes)[1..] == bytes;
  }

  lemma FourBytesMore(a: seq<Byte>, bytes: seq<Byte>)
    requires |a| == 4
    ensures LeastFirst(a + bytes) == DecodeFixed32(a) + TWO_32 * LeastFirst(bytes)
  {
    assert a + bytes == [a[0]] + ([a[1]] + ([a[2]] + ([a[3]] + bytes)));
    OneByteMore(a[3], bytes);
    OneByteMore(a[2], [a[3]] + bytes);
    OneByteMore(a[1], [a[2]] + ([a[3]] + bytes));
    OneByteMore(a[0], [a[1]] + ([a[2]] + ([a[3]] + bytes)));
  }

  /** The byte order of both widths. */
  lemma FixedIsLeastFirst(v: Uint32, w: Uint64)
    ensures LeastFirst(EncodeFixed32(v)) == v && LeastFirst(EncodeFixed64(w)) == w
  {
    WordIsLeastFirst(v);
    WordIsLeastFirst(w / TWO_32);
    Digits(w % TWO_32);
    FourBytesMore(EncodeFixed32(w % TWO_32), EncodeFixed32(w / TWO_32));
  }

  lemma WordIsLeastFirst(v: Uint32)
    ensures LeastFirst(EncodeFixed32(v)) == v
  {
    Digits(v);
    FourBytesMore(EncodeFixed32(v), []);
    assert EncodeFixed32(v) + [] == EncodeFixed32(v);
  }

  // ---------------------------------------------------------------- base-128 varints

  /** Seven bits a byte, least significant first; the high bit says that more follow. */
  function Varint(v: nat): (bytes: seq<Byte>)
    ensures |bytes| > 0
    ensures forall i | 0 <= i < |bytes| :: bytes[i] >= 128 <==> i < |bytes| - 1
  {
    if v < 128 then [v as Byte] else [(v % 128 + 128) as Byte] + Varint(v / 128)
  }

  /** The number in front of data, of at most max bytes, and its length; nothing if it does not end in time. */
  function ParseVarint(data: seq<Byte>, max: nat): (r: Option<(nat, nat)>)
    ensures r.Some? ==> 0 < r.value.1 <= |data|
  {
    if data == [] || max == 0 then None
    else if data[0] < 128 then Some((data[0] as nat, 1))
    else
      match ParseVarint(data[1..], max - 1)
      case None => None
      case Some((v, n)) => Some((data[0] as nat - 128 + 128 * v, n + 1))
  }

  lemma {:induction false} VarintRoundTrip(v: nat, rest: seq<Byte>, max: nat)
    requires |Varint(v)| <= max
    ensures ParseVarint(Varint(v) + rest, max) == Some((v, |Varint(v)|))
  {
    if v >= 128 {
      assert (Varint(v) + rest)[1..] == Varint(v / 128) + rest;
      VarintRoundTrip(v / 128, rest, max - 1);
    } else {
      assert (Varint(v) + rest)[0] == v as Byte;
    }
  }

  function Power128(i: nat): nat {
    if i == 0 then 1 else 128 * Power128(i - 1)
  }

  lemma {:induction false} VarintLength(v: nat, n: nat)
    requires n >= 1 && v < Power128(n)
    ensures |Varint(v)| <= n
  {
    if v >= 128 {
      VarintLength(v / 128, n - 1);
    }
  }

  lemma Powers()
    ensures Power128(1) == 0x80 && Power128(2) == 0x4000 && Power128(3) == 0x20_0000 && Power128(4) == 0x1000_0000
    ensures Power128(5) >= TWO_32 && Power128(10) >= TWO_64
  {
    assert Power128(1) == 128 * Power128(0);
    assert Power128(2) == 128 * Power128(1);
    assert Power128(3) == 128 * Power128(2);
    assert Power128(4) == 128 * Power128(3);
    assert Power128(5) == 128 * Power128(4);
    assert Power128(6) == 128 * Power128(5);
    assert Power128(7) == 128 * Power128(6);
    assert Power128(8) == 128 * Power128(7);
    assert Power128(9) == 128 * Power128(8);
    assert Power128(10) == 128 * Power128(9);
  }

  lemma Shifts(v: nat)
    ensures v / 0x80 / 128 == v / 0x4000
    ensures v / 0x4000 / 128 == v / 0x20_0000
    ensures v / 0x20_0000 / 128 == v / 0x1000_0000
  {
  }

  /** What the low seven bits of bytes stand for, least significant first. */
  function LeastSevenFirst(bytes: seq<Byte>): nat {
    if bytes == [] then 0 else (bytes[0] % 128) as nat + 128 * LeastSevenFirst(bytes[1..])
  }

  lemma {:induction false} VarintIsLeastFirst(v: nat)
    ensures LeastSevenFirst(Varint(v)) == v
  {
    if v >= 128 {
      VarintIsLeastFirst(v / 128);
      assert Varint(v)[1..] == Varint(v / 128);
    }
  }

  lemma VarintUnfolds(v: nat)
    ensures v >= 128 ==> Varint(v) == [(v % 128 + 128) as Byte] + Varint(v / 128)
    ensures v < 128 ==> Varint(v) == [v as Byte]
  {
  }

  /** EncodeVarint32: one branch for each length. */
  method EncodeVarint32(v: Uint32) returns (dst: seq<Byte>)
    ensures dst == Varint(v) && |dst| <= 5
  {
    Shifts(v);
    var v7, v14, v21, v28 := v / 0x80, v / 0x4000, v / 0x20_0000, v / 0x1000_0000;
    VarintUnfolds(v);
    if v < 0x80 {
      return [v as Byte];
    }
    VarintUnfolds(v7);
    if v < 0x4000 {
      return [(v % 128 + 128) as Byte, v7 as Byte];
    }
    VarintUnfolds(v14);
    if v < 0x20_0000 {
      return [(v % 128 + 128) as Byte, (v7 % 128 + 128) as Byte, v14 as Byte];
    }
    VarintUnfolds(v21);
    if v < 0x1000_0000 {
      return [(v % 128 + 128) as Byte, (v7 % 128 + 128) as Byte, (v14 % 128 + 128) as Byte, v21 as Byte];
    }
    VarintUnfolds(v28);
    dst := [(v % 128 + 128) as Byte, (v7 % 128 + 128) as Byte, (v14 % 128 + 128) as Byte,
            (v21 % 128 + 128) as Byte, v28 as Byte];
  }

  /** EncodeVarint64. */
  method EncodeVarint64(value: Uint64) returns (dst: seq<Byte>)
    ensures dst == Varint(value) && |dst| <= 10
  {
    Powers();
    VarintLength(value, 10);
    dst := [];
    var v := value;
    while v >= 128
      invariant dst + Varint(v) == Varint(value)
    {
      VarintUnfolds(v);
      assert dst + Varint(v) == (dst + [(v % 128 + 128) as Byte]) + Varint(v / 128);
      dst := dst + [(v % 128 + 128) as Byte];
      v := v / 128;
    }
    dst := dst + [v as Byte];
  }

  /** x << 7 * i */
  function Shifted(x: nat, i: nat): nat {
    x * Power128(i)
  }

  /** What has been read so far, put in front of what the rest parses to. */
  function ReadSoFar(acc: nat, i: nat, r: Option<(nat, nat)>): Option<(nat, nat)> {
    if r.Some? then Some((acc + Power128(i) * r.value.0, i + r.value.1)) else None
  }

  lemma ParseStep(data: seq<Byte>, max: nat, acc: nat, i: nat)
    requires i < max && i < |data|
    ensures data[i] >= 128 ==>
              ReadSoFar(acc, i, ParseVarint(data[i..], max - i))
              == ReadSoFar(acc + Shifted(data[i] as nat - 128, i), i + 1, ParseVarint(data[i + 1..], max - i - 1))
    ensures data[i] < 128 ==>
              ReadSoFar(acc, i, ParseVarint(data[i..], max - i)) == Some((acc + Shifted(data[i] as nat, i), i + 1))
  {
    assert data[i..][1..] == data[i + 1..];
    if data[i] >= 128 {
      var r := ParseVarint(data[i + 1..], max - i - 1);
      if r.Some? {
        Distribute(Power128(i), data[i] as nat - 128, r.value.0);
      }
    }
  }

  lemma Distribute(p: nat, b: nat, v: nat)
    ensures p * (b + 128 * v) == b * p + (128 * p) * v
  {
  }

  /** GetVarint32Ptr and its fallback loop, on the bytes in front of the limit; results wrap at 32 bits. */
  method GetVarint32(data: seq<Byte>) returns (r: Option<(Uint32, nat)>)
    ensures match ParseVarint(data, 5)
            case None => r.None?
            case Some((v, n)) => r == Some((v % TWO_32, n))
  {
    if |data| > 0 && data[0] < 128 {
      return Some((data[0] as nat, 1));
    }
    var result: nat := 0;
    var i := 0;
    assert data[0..] == data;
    while i < 5 && i < |data|
      invariant i <= 5 && i <= |data|
      invariant ParseVarint(data, 5) == ReadSoFar(result, i, ParseVarint(data[i..], 5 - i))
    {
      ParseStep(data, 5, result, i);
      var byte := data[i] as nat;
      if byte >= 128 {
        result := result + Shifted(byte - 128, i);
      } else {
        return Some(((result + Shifted(byte, i)) % TWO_32, i + 1));
      }
      i := i + 1;
    }
    r := None;
  }

  /** GetVarint64Ptr; results wrap at 64 bits. */
  method GetVarint64(data: seq<Byte>) returns (r: Option<(Uint64, nat)>)
    ensures match ParseVarint(data, 10)
            case None => r.None?
            case Some((v, n)) => r == Some((v % TWO_64, n))
  {
    var result: nat := 0;
    var i := 0;
    assert data[0..] == data;
    while i < 10 && i < |data|
      invariant i <= 10 && i <= |data|
      invariant ParseVarint(data, 10) == ReadSoFar(result, i, ParseVarint(data[i..], 10 - i))
    {
      ParseStep(data, 10, result, i);
      var byte := data[i] as nat;
      if byte >= 128 {
        result := result + Shifted(byte - 128, i);
      } else {
        return Some(((result + Shifted(byte, i)) % TWO_64, i + 1));
      }
      i := i + 1;
    }
    r := None;
  }

  // ---------------------------------------------------------------- length-prefixed slices

  function Prefixed(s: seq<Byte>): seq<Byte> {
    Varint(|s|) + s
  }

  /** GetLengthPrefixedSlice: the slice in front of the input, and how much of the input it takes. */
  function ParseSlice(input: seq<Byte>): (r: Option<(seq<Byte>, nat)>)
    ensures r.Some? ==> 0 < r.value.1 <= |input|
  {
    match ParseVarint(input, 5)
    case None => None
    case Some((v, n)) =>
      var length := v % TWO_32;
      if n + length <= |input| then Some((input[n..n + length], n + length)) else None
  }

  method GetLengthPrefixedSlice(input: seq<Byte>) returns (r: Option<(seq<Byte>, nat)>)
    ensures r == ParseSlice(input)
  {
    var length := GetVarint32(input);
    if length.None? {
      return None;
    }
    var (len, n) := length.value;
    if |input| - n < len {
      return None;
    }
    r := Some((input[n..n + len], n + len));
  }

  lemma Modulo64(n: nat)
    requires n < TWO_64
    ensures n % TWO_64 == n
  {
  }

  lemma Modulo32(n: nat)
    requires n < TWO_32
    ensures n % TWO_32 == n
  {
  }

  lemma SliceParses(s: seq<Byte>, rest: seq<Byte>)
    requires |s| < TWO_32
    ensures ParseSlice(Prefixed(s) + rest) == Some((s, |Prefixed(s)|))
    ensures (Prefixed(s) + rest)[|Prefixed(s)|..] == rest
  {
    Powers();
    VarintLength(|s|, 5);
    VarintRoundTrip(|s|, s + rest, 5);
    Modulo32(|s|);
    Slices.Associates(Varint(|s|), s, rest);
    Slices.DropFront(Prefixed(s), rest);
    var n := |Varint(|s|)|;
    assert (Varint(|s|) + (s + rest))[n..n + |s|] == s;
  }
}
