/**
 The block format: prefix-compressed entries, then the restart array, then its length. Keys are byte strings in any
 comparator's order (block_builder.cc, block.cc).
 */
module Blocks {
  import opened Coding
  import opened Keys
  import opened Reads
  import Slices

  type Key = seq<Byte>

  datatype Pair = Pair(key: Key, value: Value)

  type Order = (Key, Key) -> int

  /** A strict total order, on the keys that the comparator is made for. */
  ghost predicate IsOrder(cmp: Order, valid: Key -> bool) {
    && (forall a: Key, b: Key {:trigger cmp(a, b)} | valid(a) && valid(b) :: cmp(a, b) == 0 <==> a == b)
    && (forall a: Key, b: Key {:trigger cmp(a, b)} | valid(a) && valid(b) :: cmp(a, b) < 0 <==> cmp(b, a) > 0)
    && (forall a: Key, b: Key, c: Key {:trigger cmp(a, b), cmp(b, c)} | valid(a) && valid(b) && valid(c) ::
          cmp(a, b) < 0 && cmp(b, c) < 0 ==> cmp(a, c) < 0)
  }

  ghost predicate Ascending(cmp: Order, valid: Key -> bool, pairs: seq<Pair>) {
    && (forall i | 0 <= i < |pairs| :: valid(pairs[i].key))
    && (forall i, j | 0 <= i < j < |pairs| :: cmp(pairs[i].key, pairs[j].key) < 0)
  }

  // ---------------------------------------------------------------- one entry

  function Sizes(shared: nat, nonShared: nat, valueLength: nat): seq<Byte> {
    Varint(shared) + Varint(nonShared) + Varint(valueLength)
  }

  /** "<shared><non_shared><value_size>", the key delta, and the value. */
  function EntryBytes(shared: nat, p: Pair): seq<Byte>
    requires shared <= |p.key|
  {
    Sizes(shared, |p.key| - shared, |p.value|) + (p.key[shared..] + p.value)
  }

  /** The three sizes, and where the key delta starts. */
  datatype Header = Header(shared: nat, nonShared: nat, valueLength: nat, delta: nat)

  /** Three varints in a row, each wrapping at 32 bits as GetVarint32Ptr leaves it. */
  function ParseSizes(bytes: seq<Byte>): (r: Option<Header>)
    ensures r.Some? ==> r.value.delta <= |bytes|
  {
    match ParseVarint(bytes, 5)
    case None => None
    case Some((a, i)) =>
      match ParseVarint(bytes[i..], 5)
      case None => None
      case Some((b, j)) =>
        match ParseVarint(bytes[i..][j..], 5)
        case None => None
        case Some((c, k)) => Some(Header(a % TWO_32, b % TWO_32, c % TWO_32, i + j + k))
  }

  /** What DecodeEntry reads at p; the header's delta is an offset in data. */
  function EntryAt(data: seq<Byte>, p: nat, limit: nat): (r: Option<Header>)
    requires p <= limit <= |data|
    ensures r.Some? ==> p <= r.value.delta <= limit
  {
    if limit - p < 3 then None
    else
      match ParseSizes(data[p..limit])
      case None => None
      case Some(h) =>
        if limit - (p + h.delta) < (h.nonShared + h.valueLength) % TWO_32 then None
        else Some(h.(delta := p + h.delta))
  }

  /** The fast path: when the first three bytes have no high bit, they are the sizes. */
  lemma OneByteSizes(bytes: seq<Byte>)
    requires |bytes| >= 3 && bytes[0] < 128 && bytes[1] < 128 && bytes[2] < 128
    ensures ParseSizes(bytes) == Some(Header(bytes[0] as nat, bytes[1] as nat, bytes[2] as nat, 3))
  {
    var second := bytes[1..];
    var third := second[1..];
    assert ParseVarint(bytes, 5) == Some((bytes[0] as nat, 1));
    assert ParseVarint(second, 5) == Some((second[0] as nat, 1));
    assert ParseVarint(third, 5) == Some((third[0] as nat, 1));
  }

  method DecodeSizes(bytes: seq<Byte>) returns (r: Option<Header>)
    ensures r == ParseSizes(bytes)
  {
    var g := GetVarint32(bytes);
    if g.None? {
      return None;
    }
    var rest := bytes[g.value.1..];
    var h := GetVarint32(rest);
    if h.None? {
      return None;
    }
    rest := rest[h.value.1..];
    var k := GetVarint32(rest);
    if k.None? {
      return None;
    }
    r := Some(Header(g.value.0, h.value.0, k.value.0, g.value.1 + h.value.1 + k.value.1));
  }

  /** DecodeEntry, with its fast path for sizes of one byte each. */
  method DecodeEntry(data: seq<Byte>, p: nat, limit: nat) returns (r: Option<Header>)
    requires p <= limit <= |data|
    ensures r == EntryAt(data, p, limit)
  {
    if limit - p < 3 {
      return None;
    }
    var bytes := data[p..limit];
    var h: Option<Header>;
    if bytes[0] < 128 && bytes[1] < 128 && bytes[2] < 128 {
      OneByteSizes(bytes);
      h := Some(Header(bytes[0] as nat, bytes[1] as nat, bytes[2] as nat, 3));
    } else {
      h := DecodeSizes(bytes);
      if h.None? {
        return None;
      }
    }
    var q := p + h.value.delta;
    if limit - q < (h.value.nonShared + h.value.valueLength) % TWO_32 {
      return None;
    }
    r := Some(h.value.(delta := q));
  }

  lemma VarintParses(v: nat, rest: seq<Byte>)
    requires v < TWO_32
    ensures ParseVarint(Varint(v) + rest, 5) == Some((v, |Varint(v)|))
  {
    Powers();
    VarintLength(v, 5);
    VarintRoundTrip(v, rest, 5);
  }

  /** Three encodings in a row parse one after the other. */
  lemma ParseThree(x: seq<Byte>, y: seq<Byte>, z: seq<Byte>, rest: seq<Byte>, a: Uint32, b: Uint32, c: Uint32)
    requires ParseVarint(x + (y + (z + rest)), 5) == Some((a, |x|))
    requires ParseVarint(y + (z + rest), 5) == Some((b, |y|))
    requires ParseVarint(z + rest, 5) == Some((c, |z|))
    ensures ParseSizes((x + y + z) + rest) == Some(Header(a, b, c, |x + y + z|))
  {
    Slices.Associates(x + y, z, rest);
    Slices.Associates(x, y, z + rest);
    Slices.DropFront(x, y + (z + rest));
    Slices.DropFront(y, z + rest);
  }

  lemma SizesParse(a: nat, b: nat, c: nat, rest: seq<Byte>)
    requires a < TWO_32 && b < TWO_32 && c < TWO_32
    ensures ParseSizes(Sizes(a, b, c) + rest) == Some(Header(a, b, c, |Sizes(a, b, c)|))
  {
    VarintParses(a, Varint(b) + (Varint(c) + rest));
    VarintParses(b, Varint(c) + rest);
    VarintParses(c, rest);
    ParseThree(Varint(a), Varint(b), Varint(c), rest, a, b, c);
  }

  lemma SizesLength(a: nat, b: nat, c: nat)
    ensures |Sizes(a, b, c)| >= 3
  {
  }

  lemma EntryIs(data: seq<Byte>, p: nat, limit: nat, h: Header)
    requires p + 3 <= limit <= |data| < TWO_32
    requires ParseSizes(data[p..limit]) == Some(h) && p + h.delta + h.nonShared + h.valueLength <= limit
    ensures EntryAt(data, p, limit) == Some(h.(delta := p + h.delta))
  {
  }

  /** At p lies an encoding of the pair that takes its first bytes from the key before; next is where it ends. */
  ghost predicate HoldsEntry(data: seq<Byte>, p: nat, limit: nat, shared: nat, pair: Pair, next: nat) {
    && p <= limit <= |data|
    && shared <= |pair.key|
    && match EntryAt(data, p, limit)
       case None => false
       case Some(h) =>
         && h.shared == shared && h.nonShared == |pair.key| - shared && h.valueLength == |pair.value|
         && h.delta + h.nonShared + h.valueLength == next <= limit
         && data[h.delta..h.delta + h.nonShared] == pair.key[shared..]
         && data[h.delta + h.nonShared..next] == pair.value
  }

  lemma HoldsEntryWith(data: seq<Byte>, p: nat, limit: nat, h: Header, shared: nat, pair: Pair)
    requires p <= limit <= |data| && shared <= |pair.key|
    requires EntryAt(data, p, limit) == Some(h)
    requires h.shared == shared && h.nonShared == |pair.key| - shared && h.valueLength == |pair.value|
    requires h.delta + h.nonShared + h.valueLength <= limit
    requires data[h.delta..h.delta + h.nonShared] == pair.key[shared..]
    requires data[h.delta + h.nonShared..h.delta + h.nonShared + h.valueLength] == pair.value
    ensures HoldsEntry(data, p, limit, shared, pair, h.delta + h.nonShared + h.valueLength)
  {
  }

  lemma EntryParts(data: seq<Byte>, p: nat, limit: nat, sizes: seq<Byte>, key: seq<Byte>, value: seq<Byte>)
    requires p <= limit <= |data|
    requires sizes + (key + value) <= data[p..limit]
    ensures p + |sizes| + |key| + |value| <= limit
    ensures data[p..limit] == sizes + data[p + |sizes|..limit]
    ensures data[p + |sizes|..p + |sizes| + |key|] == key
    ensures data[p + |sizes| + |key|..p + |sizes| + |key| + |value|] == value
  {
    Slices.PartsOfSlice(sizes, key + value, data, p, limit);
    Slices.PartsOfSlice(key, value, data, p + |sizes|, p + |sizes| + |key + value|);
  }

  lemma PartsMakeEntry(data: seq<Byte>, p: nat, limit: nat, shared: nat, pair: Pair, size: nat)
    requires p <= limit <= |data| < TWO_32 && shared <= |pair.key| < TWO_32
    requires ParseSizes(data[p..limit]) == Some(Header(shared, |pair.key| - shared, |pair.value|, size)) && size >= 3
    requires var n := |pair.key| - shared;
             && p + size + n + |pair.value| <= limit
             && data[p + size..p + size + n] == pair.key[shared..]
             && data[p + size + n..p + size + n + |pair.value|] == pair.value
    ensures HoldsEntry(data, p, limit, shared, pair, p + size + (|pair.key| - shared) + |pair.value|)
  {
    var h := Header(shared, |pair.key| - shared, |pair.value|, size);
    EntryIs(data, p, limit, h);
    HoldsEntryWith(data, p, limit, h.(delta := p + size), shared, pair);
  }

  lemma EntryParsesWith(data: seq<Byte>, p: nat, limit: nat, sizes: seq<Byte>, shared: nat, pair: Pair)
    requires p <= limit <= |data| < TWO_32 && shared <= |pair.key| < TWO_32
    requires sizes + (pair.key[shared..] + pair.value) <= data[p..limit] && |sizes| >= 3
    requires ParseSizes(sizes + data[p..limit][|sizes|..])
          == Some(Header(shared, |pair.key| - shared, |pair.value|, |sizes|))
    ensures HoldsEntry(data, p, limit, shared, pair, p + |sizes| + (|pair.key| - shared) + |pair.value|)
  {
    EntryParts(data, p, limit, sizes, pair.key[shared..], pair.value);
    Slices.TwoParts(sizes, pair.key[shared..] + pair.value, data[p..limit]);
    PartsMakeEntry(data, p, limit, shared, pair, |sizes|);
  }

  /** An entry that lies in the data as it was built is decoded as it was built. */
  lemma EntryParses(data: seq<Byte>, p: nat, limit: nat, shared: nat, pair: Pair)
    requires p <= limit <= |data| < TWO_32 && shared <= |pair.key| < TWO_32
    requires EntryBytes(shared, pair) <= data[p..limit]
    ensures HoldsEntry(data, p, limit, shared, pair, p + |EntryBytes(shared, pair)|)
  {
    var sizes := Sizes(shared, |pair.key| - shared, |pair.value|);
    SizesLength(shared, |pair.key| - shared, |pair.value|);
    SizesParse(shared, |pair.key| - shared, |pair.value|, data[p..limit][|sizes|..]);
    EntryParsesWith(data, p, limit, sizes, shared, pair);
  }
}
