/**
 The filter block: one Bloom filter of user keys for every 2 KB of file offsets. A key that was added while its block
 was being written is never rejected for that block's offset (filter_block.cc, InternalFilterPolicy in dbformat.cc).
 */
module FilterBlocks {
  import opened BlockBuilding
  import opened Bloom
  import opened Coding
  import opened Keys
  import opened PowersOfTwo
  import InternalKeys

  const BASE_LG: nat := 11
  const BASE: nat := 2048

  type Key = k: Bytes | InternalKeys.IsEncoded(k) witness [0, 0, 0, 0, 0, 0, 0, 0]

  function UserKeys(keys: seq<Key>): (r: seq<Bytes>)
    ensures |r| == |keys| && forall i | 0 <= i < |keys| :: r[i] == InternalKeys.UserKeyOf(keys[i])
  {
    if keys == [] then [] else UserKeys(keys[..|keys| - 1]) + [InternalKeys.UserKeyOf(keys[|keys| - 1])]
  }

  // ---------------------------------------------------------------- what the reader decides

  function FixedAt(contents: seq<Byte>, p: nat): Uint32
    requires p + 4 <= |contents|
  {
    DecodeFixed32(contents[p..p + 4])
  }

  /** KeyMayMatch of a reader over these contents, the user key already extracted. */
  predicate MayMatch(hash: Hash, contents: seq<Byte>, blockOffset: nat, key: Bytes) {
    var n := |contents|;
    if n < 5 then true
    else
      var offsets := FixedAt(contents, n - 5);
      if offsets > n - 5 then true
      else
        var index := blockOffset / Power2(contents[n - 1] as nat);
        if index < (n - 5 - offsets) / 4 then
          var start := FixedAt(contents, offsets + index * 4);
          var limit := FixedAt(contents, offsets + index * 4 + 4);
          if start <= limit <= offsets then Matches(hash, key, contents[start..limit])
          else start != limit
        else true
  }

  method KeyMayMatch(hash: Hash, contents: seq<Byte>, blockOffset: nat, key: Key) returns (r: bool)
    ensures r == MayMatch(hash, contents, blockOffset, InternalKeys.UserKeyOf(key))
  {
    var n := |contents|;
    if n < 5 {
      return true;
    }
    var baseLg := contents[n - 1] as nat;
    var lastWord := FixedAt(contents, n - 5);
    if lastWord > n - 5 {
      return true;
    }
    var num := (n - 5 - lastWord) / 4;
    var index := blockOffset / Power2(baseLg);
    if index < num {
      var start := FixedAt(contents, lastWord + index * 4);
      var limit := FixedAt(contents, lastWord + index * 4 + 4);
      if start <= limit && limit <= lastWord {
        r := Bloom.KeyMayMatch(hash, InternalKeys.UserKeyOf(key), contents[start..limit]);
        return;
      } else if start == limit {
        return false;
      }
    }
    r := true;
  }

  // ---------------------------------------------------------------- what the builder keeps

  /** Which bytes are a filter of which keys; with no keys the filter is empty. */
  type Made = (seq<Key>, seq<Byte>) -> bool

  ghost function BloomMade(hash: Hash, k: nat): Made {
    (keys, filter) => if keys == [] then filter == [] else IsFilterOf(hash, UserKeys(keys), k, filter)
  }

  /** Filter i lies between its offset and the next, and was made from these keys. */
  ghost predicate FilterAt(made: Made, result: seq<Byte>, ends: seq<nat>, filters: seq<seq<Key>>, i: nat)
    requires |ends| == |filters| + 1 && i < |filters|
  {
    ends[i] <= ends[i + 1] <= |result| && made(filters[i], result[ends[i]..ends[i + 1]])
  }

  /** ends[i] is where filter i starts, and the last is where the next one will. */
  ghost predicate Laid(made: Made, result: seq<Byte>, ends: seq<nat>, filters: seq<seq<Key>>) {
    && |ends| == |filters| + 1
    && ends[0] == 0 && ends[|filters|] == |result|
    && forall i {:trigger FilterAt(made, result, ends, filters, i)} | 0 <= i < |filters| ::
         FilterAt(made, result, ends, filters, i)
  }

  lemma LaidGrows(made: Made, result: seq<Byte>, ends: seq<nat>, filters: seq<seq<Key>>, keys: seq<Key>,
                  filter: seq<Byte>)
    requires Laid(made, result, ends, filters) && made(keys, filter)
    ensures Laid(made, result + filter, ends + [|result + filter|], filters + [keys])
  {
    var r, e, f := result + filter, ends + [|result + filter|], filters + [keys];
    forall i | 0 <= i < |f|
      ensures FilterAt(made, r, e, f, i)
    {
      if i < |filters| {
        assert FilterAt(made, result, ends, filters, i);
        assert r[e[i]..e[i + 1]] == result[ends[i]..ends[i + 1]];
      } else {
        assert r[e[i]..e[i + 1]] == filter;
      }
    }
  }

  /** A key added while the file stood at this offset. */
  datatype Added = Added(offset: nat, key: Key)

  /** Where that key went: into the filter for its 2 KB, or it waits for that filter to be made. */
  ghost predicate Kept(a: Added, filters: seq<seq<Key>>, pending: seq<Key>) {
    if a.offset / BASE < |filters| then a.key in filters[a.offset / BASE]
    else a.offset / BASE == |filters| && a.key in pending
  }

  /** The offsets as the builder stores them: truncated to 32 bits. */
  ghost predicate Stored(filterOffsets: seq<Uint32>, ends: seq<nat>) {
    && |ends| == |filterOffsets| + 1
    && forall i | 0 <= i < |filterOffsets| :: filterOffsets[i] == ends[i] % TWO_32
  }

  class FilterBlockBuilder {
    const hash: Hash
    const bitsPerKey: nat
    const k: nat
    var keys: seq<Key>
    var result: seq<Byte>
    var filterOffsets: seq<Uint32>
    ghost var filters: seq<seq<Key>>
    ghost var ends: seq<nat>
    /** The file offset of the block being written, and every key added so far with the offset of its block. */
    ghost var current: nat
    ghost var added: set<Added>

    ghost predicate Valid()
      reads this
    {
      && 1 <= k <= 30
      && Laid(BloomMade(hash, k), result, ends, filters)
      && Stored(filterOffsets, ends)
      && current / BASE == |filters|
      && forall a | a in added :: Kept(a, filters, keys)
    }

    constructor (hash: Hash, bitsPerKey: nat, k: nat)
      requires 1 <= k <= 30
      ensures Valid() && added == {} && current == 0
      ensures this.hash == hash
    {
      this.hash, this.bitsPerKey, this.k := hash, bitsPerKey, k;
      keys, result, filterOffsets, filters, ends, current, added := [], [], [], [], [0], 0, {};
    }

    /** Filters are made until the next one is the one for this offset. */
    method StartBlock(blockOffset: nat)
      requires Valid() && blockOffset / BASE >= |filters|
      modifies this
      ensures Valid() && current == blockOffset && added == old(added)
    {
      var filterIndex := blockOffset / BASE;
      while filterIndex > |filterOffsets|
        invariant |filters| == |filterOffsets| <= filterIndex && added == old(added)
        invariant Laid(BloomMade(hash, k), result, ends, filters) && Stored(filterOffsets, ends)
        invariant forall a | a in added :: Kept(a, filters, keys)
      {
        GenerateFilter();
      }
      current := blockOffset;
    }

    method AddKey(key: Key)
      requires Valid()
      modifies this`keys, this`added
      ensures Valid() && added == old(added) + {Added(current, key)}
    {
      keys := keys + [key];
      added := added + {Added(current, key)};
      assert key in keys;
      assert forall a | a in old(added) :: Kept(a, filters, old(keys));
    }

    method GenerateFilter()
      requires 1 <= k <= 30 && Laid(BloomMade(hash, k), result, ends, filters) && Stored(filterOffsets, ends)
      requires forall a | a in added :: Kept(a, filters, keys)
      modifies this`keys, this`result, this`filterOffsets, this`filters, this`ends
      ensures Laid(BloomMade(hash, k), result, ends, filters) && Stored(filterOffsets, ends)
      ensures filters == old(filters) + [old(keys)] && keys == []
      ensures forall a | a in added :: Kept(a, filters, keys)
    {
      var numKeys := |keys|;
      var filter := [];
      if numKeys != 0 {
        filter := CreateFilter(hash, UserKeys(keys), bitsPerKey, k);
      }
      LaidGrows(BloomMade(hash, k), result, ends, filters, keys, filter);
      filterOffsets := filterOffsets + [|result| % TWO_32];
      result := result + filter;
      ends := ends + [|result|];
      filters := filters + [keys];
      assert forall a | a in added :: Kept(a, old(filters), old(keys));
      keys := [];
    }

    /** The last filter, the offsets of all, where the offsets start, and the base. */
    method Finish() returns (contents: seq<Byte>)
      requires Valid()
      modifies this
      ensures filters == old(filters) + (if old(keys) == [] then [] else [old(keys)])
      ensures contents == Contents(result, filterOffsets)
      ensures Laid(BloomMade(hash, k), result, ends, filters) && Stored(filterOffsets, ends)
      ensures |contents| < TWO_32 ==>
                forall a | a in old(added) :: MayMatch(hash, contents, a.offset, InternalKeys.UserKeyOf(a.key))
    {
      if keys != [] {
        GenerateFilter();
      }
      contents := result + (Fixed32s(filterOffsets) + (EncodeFixed32(|result| % TWO_32) + [BASE_LG as Byte]));
      if |contents| < TWO_32 {
        forall a | a in old(added)
          ensures MayMatch(hash, contents, a.offset, InternalKeys.UserKeyOf(a.key))
        {
          assert Kept(a, filters, keys);
          AddedKeyMayMatch(hash, k, result, filterOffsets, ends, filters, a);
        }
      }
    }
  }

  function Contents(result: seq<Byte>, filterOffsets: seq<Uint32>): seq<Byte> {
    result + (Fixed32s(filterOffsets) + (EncodeFixed32(|result| % TWO_32) + [BASE_LG as Byte]))
  }

  /** The words of the trailer: the offsets, and after the last of them where they start. */
  lemma TrailerWords(result: seq<Byte>, filterOffsets: seq<Uint32>, i: nat)
    requires i <= |filterOffsets| && |result| < TWO_32
    ensures var contents := Contents(result, filterOffsets);
            && |contents| == |result| + 4 * |filterOffsets| + 5
            && contents[|contents| - 1] as nat == BASE_LG
            && FixedAt(contents, |result| + 4 * i) == if i < |filterOffsets| then filterOffsets[i] else |result|
  {
    var contents := Contents(result, filterOffsets);
    var word := if i < |filterOffsets| then filterOffsets[i] else |result|;
    var offsets := Fixed32s(filterOffsets);
    if i < |filterOffsets| {
      Fixed32sParse(filterOffsets, i);
      assert contents[|result| + 4 * i..|result| + 4 * i + 4] == offsets[4 * i..4 * i + 4];
    } else {
      assert contents[|result| + 4 * i..|result| + 4 * i + 4] == EncodeFixed32(|result|);
    }
    Fixed32RoundTrip(word, []);
    assert EncodeFixed32(word) + [] == EncodeFixed32(word);
  }

  lemma Base()
    ensures Power2(BASE_LG) == BASE
  {
    SmallPowers();
  }

  /** The reader's arithmetic, with what it reads given. */
  lemma ReadsFilter(hash: Hash, contents: seq<Byte>, blockOffset: nat, key: Bytes, offsets: nat, start: nat, limit: nat)
    requires |contents| >= 5 && contents[|contents| - 1] as nat == BASE_LG
    requires FixedAt(contents, |contents| - 5) == offsets && offsets <= |contents| - 5
    requires blockOffset / BASE < (|contents| - 5 - offsets) / 4
    requires FixedAt(contents, offsets + blockOffset / BASE * 4) == start
    requires FixedAt(contents, offsets + blockOffset / BASE * 4 + 4) == limit
    requires start <= limit <= offsets
    ensures MayMatch(hash, contents, blockOffset, key) <==> Matches(hash, key, contents[start..limit])
  {
    Base();
  }

  lemma UserKeyIn(keys: seq<Key>, key: Key)
    requires key in keys
    ensures InternalKeys.UserKeyOf(key) in UserKeys(keys)
  {
    var n :| 0 <= n < |keys| && keys[n] == key;
    assert UserKeys(keys)[n] == InternalKeys.UserKeyOf(key);
  }

  /** The filter for an offset that holds this key does not reject it. */
  lemma FilterMatches(hash: Hash, k: nat, result: seq<Byte>, ends: seq<nat>, filters: seq<seq<Key>>, i: nat, key: Key)
    requires Laid(BloomMade(hash, k), result, ends, filters) && i < |filters| && key in filters[i]
    ensures ends[i] <= ends[i + 1] <= |result|
    ensures Matches(hash, InternalKeys.UserKeyOf(key), result[ends[i]..ends[i + 1]])
  {
    assert FilterAt(BloomMade(hash, k), result, ends, filters, i);
    UserKeyIn(filters[i], key);
    AddedKeyMatches(hash, UserKeys(filters[i]), k, result[ends[i]..ends[i + 1]], InternalKeys.UserKeyOf(key));
  }

  lemma Untruncated(n: nat)
    requires n < TWO_32
    ensures n % TWO_32 == n
  {
  }

  /** For offsets that have a filter, that filter and nothing else decides; one made of no keys lets none through. */
  lemma DecidedByItsFilter(hash: Hash, k: nat, result: seq<Byte>, filterOffsets: seq<Uint32>, ends: seq<nat>,
                           filters: seq<seq<Key>>, offset: nat, key: Bytes)
    requires Laid(BloomMade(hash, k), result, ends, filters) && Stored(filterOffsets, ends)
    requires |Contents(result, filterOffsets)| < TWO_32 && offset / BASE < |filters|
    ensures var i := offset / BASE;
            && ends[i] <= ends[i + 1] <= |result|
            && (MayMatch(hash, Contents(result, filterOffsets), offset, key)
                <==> Matches(hash, key, result[ends[i]..ends[i + 1]]))
            && (filters[i] == [] ==> !MayMatch(hash, Contents(result, filterOffsets), offset, key))
  {
    var contents := Contents(result, filterOffsets);
    var i := offset / BASE;
    assert FilterAt(BloomMade(hash, k), result, ends, filters, i);
    FilterWords(result, filterOffsets, ends, i);
    ReadsFilter(hash, contents, offset, key, |result|, ends[i], ends[i + 1]);
  }

  /** What the reader finds in the trailer for filter i, and where that leads it. */
  lemma FilterWords(result: seq<Byte>, filterOffsets: seq<Uint32>, ends: seq<nat>, i: nat)
    requires Stored(filterOffsets, ends) && i < |filterOffsets| && |Contents(result, filterOffsets)| < TWO_32
    requires ends[|filterOffsets|] == |result| && ends[i] <= ends[i + 1] <= |result|
    ensures var contents := Contents(result, filterOffsets);
            && |contents| == |result| + 4 * |filterOffsets| + 5 && contents[|contents| - 1] as nat == BASE_LG
            && FixedAt(contents, |contents| - 5) == |result|
            && FixedAt(contents, |result| + i * 4) == ends[i] && FixedAt(contents, |result| + i * 4 + 4) == ends[i + 1]
            && contents[ends[i]..ends[i + 1]] == result[ends[i]..ends[i + 1]]
  {
    TrailerWords(result, filterOffsets, |filterOffsets|);
    TrailerWords(result, filterOffsets, i);
    TrailerWords(result, filterOffsets, i + 1);
    Untruncated(ends[i]);
    Untruncated(ends[i + 1]);
  }

  lemma AddedKeyMayMatch(hash: Hash, k: nat, result: seq<Byte>, filterOffsets: seq<Uint32>, ends: seq<nat>,
                         filters: seq<seq<Key>>, a: Added)
    requires Laid(BloomMade(hash, k), result, ends, filters) && Stored(filterOffsets, ends)
    requires |Contents(result, filterOffsets)| < TWO_32
    requires a.offset / BASE < |filters| && a.key in filters[a.offset / BASE]
    ensures MayMatch(hash, Contents(result, filterOffsets), a.offset, InternalKeys.UserKeyOf(a.key))
  {
    FilterMatches(hash, k, result, ends, filters, a.offset / BASE, a.key);
    DecidedByItsFilter(hash, k, result, filterOffsets, ends, filters, a.offset, InternalKeys.UserKeyOf(a.key));
  }
}
