/**
 Internal keys, the entries stored under them, and their order.

 The engine touches user keys only through the user comparator and through equality, so a user key is
 represented by its rank in the comparator's order. Every countable total order embeds in the reals;
 module Comparator gives the embedding for the bytewise comparator that LevelDB uses by default.
 */
module Keys {

  type UserKey = real

  newtype Byte = b: int | 0 <= b < 256

  type Value = seq<Byte>

  const MAX_SEQUENCE: nat := 0xFF_FFFF_FFFF_FFFF

  type SequenceNumber = n: nat | n <= MAX_SEQUENCE

  datatype ValueType = TypeDeletion | TypeValue

  /** The type used to seek: the highest-numbered one, because types sort descending. */
  const TYPE_FOR_SEEK := TypeValue

  datatype InternalKey = InternalKey(user: UserKey, sequence: SequenceNumber, kind: ValueType)

  datatype Entry = Entry(key: InternalKey, value: Value)

  /** The 64-bit trailer of an internal key: sequence number and type packed together. */
  function Tag(k: InternalKey): nat {
    k.sequence * 256 + if k.kind.TypeValue? then 1 else 0
  }

  /** User key ascending, then sequence number descending, then type descending. */
  function Compare(a: InternalKey, b: InternalKey): int {
    if a.user < b.user then -1
    else if a.user > b.user then 1
    else if Tag(a) > Tag(b) then -1
    else if Tag(a) < Tag(b) then 1
    else 0
  }

  predicate Less(a: InternalKey, b: InternalKey) {
    Compare(a, b) < 0
  }

  /** The first internal key, in key order, that a read of u at snapshot s may use. */
  function LookupKey(u: UserKey, s: SequenceNumber): InternalKey {
    InternalKey(u, s, TYPE_FOR_SEEK)
  }

  /** a comes before b, and if they share a user key then a is strictly newer. */
  predicate Before(a: InternalKey, b: InternalKey) {
    a.user < b.user || (a.user == b.user && a.sequence > b.sequence)
  }

  /** What a table, a memtable or a merged input holds: entries in key order, one per (user key, sequence). */
  ghost predicate Ordered(es: seq<Entry>) {
    forall i, j | 0 <= i < j < |es| :: Before(es[i].key, es[j].key)
  }

  /** Compare is a strict total order: irreflexive, transitive, and 0 only on equal keys. */
  lemma CompareIsTotalOrder(a: InternalKey, b: InternalKey, c: InternalKey)
    ensures Compare(a, b) == 0 <==> a == b
    ensures Compare(a, b) == -Compare(b, a)
    ensures Less(a, b) && Less(b, c) ==> Less(a, c)
  {
  }

  /** An entry is at or after the lookup key exactly when it may answer the lookup or sorts past its user key. */
  lemma LookupSplits(u: UserKey, s: SequenceNumber, k: InternalKey)
    ensures !Less(k, LookupKey(u, s)) <==> k.user > u || (k.user == u && k.sequence <= s)
  {
  }
}
