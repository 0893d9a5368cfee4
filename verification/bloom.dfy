/**
 The Bloom filter policy, for any hash function: a filter's bits are exactly the probes of its keys, so a key that was
 added is never rejected (bloom.cc).
 */
module Bloom {
  import opened Coding
  import opened Keys
  import opened PowersOfTwo

  type Bytes = seq<Byte>
  type Hash = Bytes -> Uint32

  // ---------------------------------------------------------------- bits of a byte

  /** x >> i & 1 */
  predicate BitOf(x: nat, i: nat) {
    if i == 0 then x % 2 == 1 else BitOf(x / 2, i - 1)
  }

  /** x | (1 << i) */
  function WithBit(x: nat, i: nat): nat {
    if i == 0 then x - x % 2 + 1 else 2 * WithBit(x / 2, i - 1) + x % 2
  }

  lemma {:induction false} WithBitSets(x: nat, i: nat, j: nat)
    ensures BitOf(WithBit(x, i), j) <==> BitOf(x, j) || i == j
  {
    if i > 0 && j > 0 {
      WithBitSets(x / 2, i - 1, j - 1);
    }
  }

  lemma {:induction false} WithBitFits(x: nat, i: nat, n: nat)
    requires x < Power2(n) && i < n
    ensures WithBit(x, i) < Power2(n)
  {
    if i > 0 {
      WithBitFits(x / 2, i - 1, n - 1);
    }
  }

  predicate ByteBit(b: Byte, i: nat) {
    BitOf(b as nat, i)
  }

  function SetBit(b: Byte, i: nat): Byte
    requires i < 8
  {
    SmallPowers();
    WithBitFits(b as nat, i, 8);
    WithBit(b as nat, i) as Byte
  }

  lemma {:induction false} NoBits(i: nat)
    ensures !BitOf(0, i)
  {
    if i > 0 {
      NoBits(i - 1);
    }
  }

  // ---------------------------------------------------------------- filters

  /** The bit a filter keeps at a position: the filter's last byte is the number of probes, the others are bits. */
  predicate FilterBit(filter: seq<Byte>, position: nat)
    requires position < 8 * |filter|
  {
    ByteBit(filter[position / 8], position % 8)
  }

  /** The second hash: the first rotated right by seventeen bits. */
  function Delta(h: Uint32): Uint32 {
    h / 0x2_0000 + h % 0x2_0000 * 0x8000
  }

  lemma DeltaRotates(hi: nat, lo: nat)
    requires hi < 0x8000 && lo < 0x2_0000
    ensures Delta(hi * 0x2_0000 + lo) == lo * 0x8000 + hi
  {
  }

  /** h after j steps of double hashing, modulo 2^32. */
  function Stepped(h: Uint32, delta: Uint32, j: nat): Uint32 {
    if j == 0 then h else (Stepped(h, delta, j - 1) + delta) % TWO_32
  }

  /** The j-th bit that a key stands for. */
  function Probe(hash: Hash, key: Bytes, bits: nat, j: nat): nat
    requires bits > 0
  {
    Stepped(hash(key), Delta(hash(key)), j) % bits
  }

  /** Some key, among the first n, sets this bit. */
  ghost predicate Probed(hash: Hash, keys: seq<Bytes>, n: nat, bits: nat, k: nat, position: nat)
    requires n <= |keys| && bits > 0
  {
    exists i, j :: 0 <= i < n && 0 <= j < k && Probe(hash, keys[i], bits, j) == position
  }

  ghost predicate IsFilterOf(hash: Hash, keys: seq<Bytes>, k: nat, filter: seq<Byte>) {
    && |filter| >= 9
    && filter[|filter| - 1] as nat == k
    && forall p | 0 <= p < 8 * (|filter| - 1) ::
         FilterBit(filter, p) <==> Probed(hash, keys, |keys|, 8 * (|filter| - 1), k, p)
  }

  /** The positions that are set. */
  ghost predicate Holds(bytes: seq<Byte>, on: set<nat>) {
    forall p | 0 <= p < 8 * |bytes| :: FilterBit(bytes, p) <==> p in on
  }

  lemma SetHolds(bytes: seq<Byte>, on: set<nat>, q: nat)
    requires q < 8 * |bytes| && Holds(bytes, on)
    ensures Holds(bytes[q / 8 := SetBit(bytes[q / 8], q % 8)], on + {q})
  {
    var after := bytes[q / 8 := SetBit(bytes[q / 8], q % 8)];
    forall p | 0 <= p < 8 * |bytes|
      ensures FilterBit(after, p) <==> p in on + {q}
    {
      assert FilterBit(bytes, p) <==> p in on;
      if p / 8 == q / 8 {
        WithBitSets(bytes[q / 8] as nat, q % 8, p % 8);
        assert p % 8 == q % 8 <==> p == q;
      }
    }
  }

  /** The probes of one key, up to the j-th. */
  ghost predicate ProbedBy(hash: Hash, key: Bytes, bits: nat, j: nat, position: nat)
    requires bits > 0
  {
    exists n :: 0 <= n < j && Probe(hash, key, bits, n) == position
  }

  lemma OneMoreProbe(hash: Hash, key: Bytes, bits: nat, j: nat, position: nat)
    requires bits > 0
    ensures ProbedBy(hash, key, bits, j + 1, position)
       <==> ProbedBy(hash, key, bits, j, position) || position == Probe(hash, key, bits, j)
  {
  }

  lemma OneMoreKey(hash: Hash, keys: seq<Bytes>, i: nat, bits: nat, k: nat, position: nat)
    requires bits > 0 && i < |keys|
    ensures Probed(hash, keys, i + 1, bits, k, position)
       <==> Probed(hash, keys, i, bits, k, position) || ProbedBy(hash, keys[i], bits, k, position)
  {
    if Probed(hash, keys, i + 1, bits, k, position) {
      var m, j :| 0 <= m < i + 1 && 0 <= j < k && Probe(hash, keys[m], bits, j) == position;
    }
    if ProbedBy(hash, keys[i], bits, k, position) {
      var n :| 0 <= n < k && Probe(hash, keys[i], bits, n) == position;
      assert 0 <= i < i + 1;
    }
  }

  /** Sets the bits of one key. */
  method AddProbes(hash: Hash, key: Bytes, k: nat, bytes: array<Byte>, ghost on: set<nat>)
    returns (ghost more: set<nat>)
    requires bytes.Length > 0 && Holds(bytes[..], on)
    modifies bytes
    ensures Holds(bytes[..], more)
    ensures forall p :: p in more <==> p in on || ProbedBy(hash, key, 8 * bytes.Length, k, p)
  {
    var bits := 8 * bytes.Length;
    var h := hash(key);
    var delta := Delta(h);
    more := on;
    for j := 0 to k
      invariant h == Stepped(hash(key), delta, j)
      invariant Holds(bytes[..], more)
      invariant forall p :: p in more <==> p in on || ProbedBy(hash, key, bits, j, p)
    {
      var bitpos := h % bits;
      SetHolds(bytes[..], more, bitpos);
      ghost var before := bytes[..];
      bytes[bitpos / 8] := SetBit(bytes[bitpos / 8], bitpos % 8);
      assert bytes[..] == before[bitpos / 8 := SetBit(before[bitpos / 8], bitpos % 8)];
      forall p: nat
        ensures p in more + {bitpos} <==> p in on || ProbedBy(hash, key, bits, j + 1, p)
      {
        OneMoreProbe(hash, key, bits, j, p);
      }
      more := more + {bitpos};
      h := (h + delta) % TWO_32;
    }
  }

  method CreateFilter(hash: Hash, keys: seq<Bytes>, bitsPerKey: nat, k: nat) returns (filter: seq<Byte>)
    requires 1 <= k <= 30
    ensures IsFilterOf(hash, keys, k, filter)
    ensures |filter| == (if |keys| * bitsPerKey < 64 then 64 else |keys| * bitsPerKey + 7) / 8 + 1
  {
    var bits := |keys| * bitsPerKey;
    if bits < 64 {
      bits := 64;
    }
    var size := (bits + 7) / 8;
    bits := size * 8;
    var bytes := new Byte[size](_ => 0);
    ghost var on: set<nat> := {};
    NothingSet(bytes[..]);
    for i := 0 to |keys|
      invariant Holds(bytes[..], on)
      invariant forall p :: p in on <==> Probed(hash, keys, i, bits, k, p)
    {
      ghost var before := on;
      on := AddProbes(hash, keys[i], k, bytes, on);
      forall p: nat
        ensures p in on <==> Probed(hash, keys, i + 1, bits, k, p)
      {
        OneMoreKey(hash, keys, i, bits, k, p);
      }
    }
    filter := bytes[..] + [k as Byte];
    SameBits(bytes[..], k as Byte);
  }

  lemma NothingSet(bytes: seq<Byte>)
    requires forall i | 0 <= i < |bytes| :: bytes[i] == 0
    ensures Holds(bytes, {})
  {
    forall p | 0 <= p < 8 * |bytes|
      ensures !FilterBit(bytes, p)
    {
      NoBits(p % 8);
    }
  }

  lemma SameBits(bytes: seq<Byte>, last: Byte)
    ensures forall p | 0 <= p < 8 * |bytes| :: FilterBit(bytes + [last], p) == FilterBit(bytes, p)
  {
  }

  // ---------------------------------------------------------------- queries

  predicate ProbeHits(hash: Hash, key: Bytes, filter: seq<Byte>, j: nat)
    requires |filter| >= 2
  {
    FilterBit(filter, Probe(hash, key, 8 * (|filter| - 1), j))
  }

  predicate Matches(hash: Hash, key: Bytes, filter: seq<Byte>) {
    if |filter| < 2 then false
    else if filter[|filter| - 1] > 30 then true
    else forall j | 0 <= j < filter[|filter| - 1] as int :: ProbeHits(hash, key, filter, j)
  }

  lemma ProbeAt(hash: Hash, key: Bytes, filter: seq<Byte>, j: nat, bitpos: nat)
    requires |filter| >= 2
    requires bitpos == Stepped(hash(key), Delta(hash(key)), j) % (8 * (|filter| - 1))
    ensures bitpos / 8 < |filter| && ProbeHits(hash, key, filter, j) == ByteBit(filter[bitpos / 8], bitpos % 8)
  {
  }

  method KeyMayMatch(hash: Hash, key: Bytes, filter: seq<Byte>) returns (r: bool)
    ensures r == Matches(hash, key, filter)
  {
    var len := |filter|;
    if len < 2 {
      return false;
    }
    var bits := (len - 1) * 8;
    var k := filter[len - 1] as nat;
    if k > 30 {
      return true;
    }
    var h := hash(key);
    var delta := Delta(h);
    for j := 0 to k
      invariant h == Stepped(hash(key), delta, j)
      invariant forall i | 0 <= i < j :: ProbeHits(hash, key, filter, i)
    {
      var bitpos := h % bits;
      ProbeAt(hash, key, filter, j, bitpos);
      if !ByteBit(filter[bitpos / 8], bitpos % 8) {
        return false;
      }
      h := (h + delta) % TWO_32;
    }
    r := true;
  }

  /** A key that was added is never rejected. */
  lemma AddedKeyMatches(hash: Hash, keys: seq<Bytes>, k: nat, filter: seq<Byte>, key: Bytes)
    requires IsFilterOf(hash, keys, k, filter) && key in keys
    ensures Matches(hash, key, filter)
  {
    var i :| 0 <= i < |keys| && keys[i] == key;
    var bits := 8 * (|filter| - 1);
    forall j | 0 <= j < k
      ensures ProbeHits(hash, key, filter, j)
    {
      assert Probe(hash, keys[i], bits, j) == Probe(hash, key, bits, j);
      assert Probed(hash, keys, |keys|, bits, k, Probe(hash, key, bits, j));
    }
  }

  /** A key is let through exactly if each of its bits is one that some added key stands for. */
  lemma MatchesExactlyWhen(hash: Hash, keys: seq<Bytes>, k: nat, filter: seq<Byte>, key: Bytes)
    requires IsFilterOf(hash, keys, k, filter) && 1 <= k <= 30
    ensures var bits := 8 * (|filter| - 1);
            Matches(hash, key, filter)
            <==> forall j | 0 <= j < k :: Probed(hash, keys, |keys|, bits, k, Probe(hash, key, bits, j))
    ensures keys == [] ==> !Matches(hash, key, filter)
  {
    var bits := 8 * (|filter| - 1);
    forall j | 0 <= j < k
      ensures ProbeHits(hash, key, filter, j) <==> Probed(hash, keys, |keys|, bits, k, Probe(hash, key, bits, j))
    {
      assert 0 <= Probe(hash, key, bits, j) < bits;
    }
    if keys == [] {
      assert !Probed(hash, keys, 0, bits, k, Probe(hash, key, bits, 0));
    }
  }

  /** Double hashing: each step adds the second hash to the first, all modulo 2^32. */
  lemma {:induction false} SteppedIs(h: Uint32, delta: Uint32, j: nat)
    ensures Stepped(h, delta, j) == (h + j * delta) % TWO_32
  {
    if j > 0 {
      SteppedIs(h, delta, j - 1);
      assert h + j * delta == (h + (j - 1) * delta) + delta;
      AddModulo(h + (j - 1) * delta, delta);
    }
  }

  lemma AddModulo(a: nat, d: nat)
    ensures (a % TWO_32 + d) % TWO_32 == (a + d) % TWO_32
  {
  }
}
