/**
 Internal keys as byte strings: the encoding, the comparator on encodings, and its separators. Encodings of the keys
 of module Keys compare as the keys do (dbformat.cc).
 */
module InternalKeys {
  import opened Coding
  import opened Keys
  import Comparator
  import Slices

  type Bytes = seq<Byte>

  function Pack(sequence: SequenceNumber, kind: ValueType): Uint64 {
    sequence * 256 + if kind.TypeValue? then 1 else 0
  }

  /** AppendInternalKey. */
  function Encode(user: Bytes, sequence: SequenceNumber, kind: ValueType): (k: Bytes)
    ensures |k| == |user| + 8
  {
    user + EncodeFixed64(Pack(sequence, kind))
  }

  /** A string long enough to hold a tag. */
  predicate IsEncoded(k: Bytes) {
    |k| >= 8
  }

  function UserKeyOf(k: Bytes): Bytes
    requires IsEncoded(k)
  {
    k[..|k| - 8]
  }

  function TagOf(k: Bytes): Uint64
    requires IsEncoded(k)
  {
    DecodeFixed64(k[|k| - 8..])
  }

  /** InternalKeyComparator::Compare over the bytewise comparator; the engine never gives it a shorter string. */
  function Compare(a: Bytes, b: Bytes): int {
    if !IsEncoded(a) || !IsEncoded(b) then 0
    else
      var r := Comparator.Compare(UserKeyOf(a), UserKeyOf(b));
      if r != 0 then r
      else if TagOf(a) > TagOf(b) then -1
      else if TagOf(a) < TagOf(b) then 1
      else 0
  }

  lemma EncodedParts(user: Bytes, sequence: SequenceNumber, kind: ValueType)
    ensures UserKeyOf(Encode(user, sequence, kind)) == user
    ensures TagOf(Encode(user, sequence, kind)) == Pack(sequence, kind)
  {
    var tag := EncodeFixed64(Pack(sequence, kind));
    Slices.DropFront(user, tag);
    Fixed64RoundTrip(Pack(sequence, kind), []);
    assert tag + [] == tag;
  }

  /** The key of module Keys that an encoding stands for. */
  function Meaning(user: Bytes, sequence: SequenceNumber, kind: ValueType): InternalKey {
    InternalKey(Comparator.Rank(user), sequence, kind)
  }

  /** Encodings compare as what they stand for. */
  lemma EncodingsCompare(u1: Bytes, s1: SequenceNumber, k1: ValueType, u2: Bytes, s2: SequenceNumber, k2: ValueType)
    ensures Compare(Encode(u1, s1, k1), Encode(u2, s2, k2)) == Keys.Compare(Meaning(u1, s1, k1), Meaning(u2, s2, k2))
  {
    EncodedParts(u1, s1, k1);
    EncodedParts(u2, s2, k2);
    Comparator.RankKeepsOrder(u1, u2);
    Comparator.RankKeepsOrder(u2, u1);
    Comparator.CompareIsOrder(u1, u2, u1);
    Comparator.CompareIsSign(u1, u2);
  }

  lemma Fixed32Injective(a: Bytes, b: Bytes)
    requires |a| >= 4 && |b| >= 4 && DecodeFixed32(a) == DecodeFixed32(b)
    ensures a[..4] == b[..4]
  {
    assert a[0] == b[0] && a[1] == b[1] && a[2] == b[2] && a[3] == b[3];
  }

  lemma HalvesAreEqual(low1: nat, high1: nat, low2: nat, high2: nat)
    requires low1 < TWO_32 && low2 < TWO_32 && low1 + high1 * TWO_32 == low2 + high2 * TWO_32
    ensures low1 == low2 && high1 == high2
  {
  }

  lemma Fixed64Injective(a: Bytes, b: Bytes)
    requires |a| == 8 && |b| == 8 && DecodeFixed64(a) == DecodeFixed64(b)
    ensures a == b
  {
    HalvesAreEqual(DecodeFixed32(a), DecodeFixed32(a[4..]), DecodeFixed32(b), DecodeFixed32(b[4..]));
    Fixed32Injective(a, b);
    Fixed32Injective(a[4..], b[4..]);
    assert a == a[..4] + a[4..][..4] && b == b[..4] + b[4..][..4];
  }

  /** A strict total order on encodings. */
  lemma CompareIsOrder(a: Bytes, b: Bytes, c: Bytes)
    requires IsEncoded(a) && IsEncoded(b) && IsEncoded(c)
    ensures Compare(a, b) == 0 <==> a == b
    ensures Compare(a, b) == -Compare(b, a)
    ensures Compare(a, b) < 0 && Compare(b, c) < 0 ==> Compare(a, c) < 0
  {
    Comparator.CompareIsOrder(UserKeyOf(a), UserKeyOf(b), UserKeyOf(c));
    Comparator.CompareIsOrder(UserKeyOf(b), UserKeyOf(c), UserKeyOf(a));
    if Compare(a, b) == 0 {
      Fixed64Injective(a[|a| - 8..], b[|b| - 8..]);
      assert a == UserKeyOf(a) + a[|a| - 8..] && b == UserKeyOf(b) + b[|b| - 8..];
    }
  }

  // ---------------------------------------------------------------- separators

  const MAX_TAG: Uint64 := Pack(MAX_SEQUENCE, TypeValue)

  /** The user key's separator ends at n, before the user key does. */
  predicate ShortensAt(start: Bytes, limit: Bytes, n: nat) {
    Comparator.HasRoomAt(start, limit, n) && n + 1 < |start|
  }

  /** FindShortestSeparator: start itself, or the first possible key of a user key strictly between. */
  method FindShortestSeparator(start: Bytes, limit: Bytes) returns (r: Bytes)
    requires IsEncoded(start) && IsEncoded(limit) && Compare(start, limit) < 0
    ensures IsEncoded(r) && |r| <= |start|
    ensures r == start
         || (Comparator.Compare(UserKeyOf(start), UserKeyOf(r)) < 0
           && Comparator.Compare(UserKeyOf(r), UserKeyOf(limit)) < 0
             && TagOf(r) == MAX_TAG)
    ensures Compare(start, r) <= 0 && Compare(r, limit) < 0
    ensures r != start <==> exists n: nat :: ShortensAt(UserKeyOf(start), UserKeyOf(limit), n)
    ensures forall n: nat | ShortensAt(UserKeyOf(start), UserKeyOf(limit), n) :: |UserKeyOf(r)| == n + 1
  {
    var userStart, userLimit := UserKeyOf(start), UserKeyOf(limit);
    var tmp := Comparator.FindShortestSeparator(userStart, userLimit);
    if |tmp| < |userStart| {
      assert tmp != userStart;
      var n: nat :| Comparator.HasRoomAt(userStart, userLimit, n);
      assert ShortensAt(userStart, userLimit, n);
    }
    r := start;
    CompareIsOrder(start, start, start);
    if |tmp| < |userStart| && Comparator.Compare(userStart, tmp) < 0 {
      EncodedParts(tmp, MAX_SEQUENCE, TypeValue);
      r := tmp + EncodeFixed64(Pack(MAX_SEQUENCE, TypeValue));
      Comparator.CompareIsOrder(userStart, userLimit, userStart);
    }
  }

  /** The first byte below 0xff, given one at i. */
  lemma {:induction false} CanGrowSomewhere(key: Bytes, i: nat)
    requires i < |key| && key[i] != 0xff
    ensures exists n: nat :: Comparator.CanGrowAt(key, n)
  {
    if j: nat :| j < i && key[j] != 0xff {
      CanGrowSomewhere(key, j);
    } else {
      assert Comparator.CanGrowAt(key, i);
    }
  }

  /** FindShortSuccessor: the key itself, or the first possible key of a later user key. */
  method FindShortSuccessor(key: Bytes) returns (r: Bytes)
    requires IsEncoded(key)
    ensures IsEncoded(r) && |r| <= |key|
    ensures r == key || (Comparator.Compare(UserKeyOf(key), UserKeyOf(r)) < 0 && TagOf(r) == MAX_TAG)
    ensures Compare(key, r) <= 0
    ensures r != key <==> exists n: nat :: Comparator.CanGrowAt(UserKeyOf(key), n) && n + 1 < |UserKeyOf(key)|
    ensures forall n: nat | Comparator.CanGrowAt(UserKeyOf(key), n) && n + 1 < |UserKeyOf(key)| ::
              |UserKeyOf(r)| == n + 1
  {
    var userKey := UserKeyOf(key);
    var tmp := Comparator.FindShortSuccessor(userKey);
    if |tmp| < |userKey| {
      assert tmp != userKey;
      var i: nat :| i < |userKey| && userKey[i] != 0xff;
      CanGrowSomewhere(userKey, i);
    }
    r := key;
    CompareIsOrder(key, key, key);
    if |tmp| < |userKey| && Comparator.Compare(userKey, tmp) < 0 {
      EncodedParts(tmp, MAX_SEQUENCE, TypeValue);
      r := tmp + EncodeFixed64(Pack(MAX_SEQUENCE, TypeValue));
    }
  }
}
