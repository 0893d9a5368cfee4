/**
 Table files: blocks with trailers, handles, and the lookup through the index block and the filter (format.cc,
 table.cc).
 */
module Tables {
  import opened BlockBuilding
  import opened BlockIter
  import opened Blocks
  import opened Coding
  import opened Cursors
  import opened Keys
  import opened Reads
  import opened TableSearch
  import Bloom
  import FilterBlocks
  import InternalKeys
  import Slices

  const TRAILER_SIZE: nat := 5

  // ---------------------------------------------------------------- handles

  datatype Handle = Handle(offset: nat, size: nat)

  /** BlockHandle::EncodeTo. */
  function EncodeHandle(h: Handle): seq<Byte> {
    Varint(h.offset) + Varint(h.size)
  }

  /** Two numbers in front; extra bytes are allowed. */
  function ParseHandle(bytes: seq<Byte>): Option<Handle> {
    var offset := ParseVarint(bytes, 10);
    if offset.None? then None
    else
      var size := ParseVarint(bytes[offset.value.1..], 10);
      if size.None? then None else Some(Handle(offset.value.0 % TWO_64, size.value.0 % TWO_64))
  }

  /** BlockHandle::DecodeFrom. */
  method DecodeHandle(bytes: seq<Byte>) returns (r: Option<Handle>)
    ensures r == ParseHandle(bytes)
  {
    var offset := GetVarint64(bytes);
    if offset.None? {
      return None;
    }
    var size := GetVarint64(bytes[offset.value.1..]);
    if size.None? {
      return None;
    }
    r := Some(Handle(offset.value.0, size.value.0));
  }

  lemma HandleRoundTrip(h: Handle)
    requires h.offset < TWO_64 && h.size < TWO_64
    ensures ParseHandle(EncodeHandle(h)) == Some(h) && |EncodeHandle(h)| <= 20
  {
    Powers();
    VarintLength(h.offset, 10);
    VarintLength(h.size, 10);
    VarintRoundTrip(h.offset, Varint(h.size), 10);
    VarintRoundTrip(h.size, [], 10);
    assert Varint(h.size) + [] == Varint(h.size);
    Slices.DropFront(Varint(h.offset), Varint(h.size));
    Modulo64(h.offset);
    Modulo64(h.size);
  }

  /** Any handle that was encoded is decoded. */
  method ReadHandle(bytes: seq<Byte>, ghost h: Handle) returns (r: Handle)
    requires bytes == EncodeHandle(h) && h.offset < TWO_64 && h.size < TWO_64
    ensures r == h
  {
    HandleRoundTrip(h);
    var decoded := DecodeHandle(bytes);
    r := decoded.value;
  }

  // ---------------------------------------------------------------- blocks in a file

  /** The checksum kept in a block's trailer, over the contents and the type byte. */
  type Sum = seq<Byte> -> Fixed32

  const NO_COMPRESSION: Byte := 0

  function BlockTrailer(sum: Sum, contents: seq<Byte>): (bytes: seq<Byte>)
    ensures |bytes| == TRAILER_SIZE
  {
    [NO_COMPRESSION] + sum(contents + [NO_COMPRESSION])
  }

  /** The contents of a block that holds exactly these pairs. */
  ghost predicate IsBlockOf(contents: seq<Byte>, pairs: seq<Pair>) {
    exists limit, l :: HasLayout(contents, limit, l) && l.pairs == pairs
  }

  ghost predicate HasLayout(contents: seq<Byte>, limit: nat, l: Layout) {
    && IsBlock(contents, limit, l)
    && |contents| == limit + 4 * |l.restarts| + 4
    && DecodeFixed32(contents[|contents| - 4..]) == |l.restarts|
  }

  ghost predicate HoldsBlock(sum: Sum, file: seq<Byte>, h: Handle, pairs: seq<Pair>) {
    && h.offset < TWO_64 && h.size < TWO_64
    && h.offset + h.size + TRAILER_SIZE <= |file|
    && var contents := file[h.offset..h.offset + h.size];
       && file[h.offset + h.size..h.offset + h.size + TRAILER_SIZE] == BlockTrailer(sum, contents)
       && IsBlockOf(contents, pairs)
  }

  /** Block and NewIterator over it. */
  method OpenIter(contents: seq<Byte>, ghost pairs: seq<Pair>) returns (iter: Iter)
    requires IsBlockOf(contents, pairs)
    requires Blocks.Ascending(InternalKeys.Compare, InternalKeys.IsEncoded, pairs)
    ensures fresh(iter) && iter.Block() && iter.Stands() && iter.l.pairs == pairs
    ensures iter.cmp == InternalKeys.Compare && iter.valid == InternalKeys.IsEncoded
  {
    ghost var limit, l :| HasLayout(contents, limit, l) && l.pairs == pairs;
    EncodedOrder();
    var trailer := OpenBlock(contents);
    iter := new Iter(InternalKeys.Compare, InternalKeys.IsEncoded, contents, trailer.value.0, trailer.value.1, l);
  }

  lemma EncodedOrder()
    ensures IsOrder(InternalKeys.Compare, InternalKeys.IsEncoded)
  {
    forall a: Key, b: Key, c: Key {:trigger InternalKeys.Compare(a, b), InternalKeys.Compare(b, c)}
      | InternalKeys.IsEncoded(a) && InternalKeys.IsEncoded(b) && InternalKeys.IsEncoded(c)
      ensures InternalKeys.Compare(a, b) < 0 && InternalKeys.Compare(b, c) < 0 ==> InternalKeys.Compare(a, c) < 0
    {
      InternalKeys.CompareIsOrder(a, b, c);
    }
    forall a: Key, b: Key {:trigger InternalKeys.Compare(a, b)} | InternalKeys.IsEncoded(a) && InternalKeys.IsEncoded(b)
      ensures InternalKeys.Compare(a, b) == 0 <==> a == b
      ensures InternalKeys.Compare(a, b) < 0 <==> InternalKeys.Compare(b, a) > 0
    {
      InternalKeys.CompareIsOrder(a, b, a);
    }
  }

  /** Seek over such an iterator, and the entry it stops at: which one, and the first not before k. */
  method SeekIn(iter: Iter, k: Key) returns (hit: Option<Pair>)
    requires iter.Block() && iter.Stands() && iter.cmp == InternalKeys.Compare && iter.valid == InternalKeys.IsEncoded
    requires InternalKeys.IsEncoded(k)
    modifies iter
    ensures iter.Stands() && iter.at <= |iter.l.pairs|
    ensures forall n | 0 <= n < iter.at :: InternalKeys.Compare(iter.l.pairs[n].key, k) < 0
    ensures iter.at < |iter.l.pairs| ==> InternalKeys.Compare(iter.l.pairs[iter.at].key, k) >= 0
    ensures hit == if iter.at < |iter.l.pairs| then Some(iter.l.pairs[iter.at]) else None
  {
    iter.Seek(k);
    iter.OffsetsAscend(iter.at);
    if iter.Valid() {
      hit := Some(Pair(iter.key, iter.data[iter.valueStart..iter.valueEnd]));
    } else {
      hit := None;
    }
  }

  // ---------------------------------------------------------------- tables

  /** An open table: the file, the contents of its index block, and the contents of its filter block if it has one. */
  datatype Table = Table(file: seq<Byte>, index: seq<Byte>, filter: Option<seq<Byte>>)

  function IndexPairs(separators: seq<Key>, handles: seq<Handle>): (pairs: seq<Pair>)
    requires |separators| <= |handles|
    ensures |pairs| == |separators|
  {
    seq(|separators|, i requires 0 <= i < |separators| => Pair(separators[i], EncodeHandle(handles[i])))
  }

  /** The filter does not reject any key of the table, asked about its own block. */
  ghost predicate FilterKnows(hash: Bloom.Hash, filter: seq<Byte>, blocks: seq<seq<Pair>>, handles: seq<Handle>)
    requires |handles| == |blocks| && TableSearch.Increasing(blocks)
  {
    forall b, i | 0 <= b < |blocks| && 0 <= i < |blocks[b]| ::
      FilterBlocks.MayMatch(hash, filter, handles[b].offset, InternalKeys.UserKeyOf(blocks[b][i].key))
  }

  ghost predicate IsTable(sum: Sum, hash: Bloom.Hash, t: Table, blocks: seq<seq<Pair>>, handles: seq<Handle>,
                          separators: seq<Key>) {
    && Indexed(blocks, separators)
    && |handles| == |blocks|
    && (forall b {:trigger HoldsBlock(sum, t.file, handles[b], blocks[b])} | 0 <= b < |blocks| ::
          HoldsBlock(sum, t.file, handles[b], blocks[b]))
    && IsBlockOf(t.index, IndexPairs(separators, handles))
    && (t.filter.Some? ==> FilterKnows(hash, t.filter.value, blocks, handles))
  }

  lemma SeparatorsAscend(blocks: seq<seq<Pair>>, separators: seq<Key>, handles: seq<Handle>)
    requires Indexed(blocks, separators) && |handles| == |blocks|
    ensures Blocks.Ascending(InternalKeys.Compare, InternalKeys.IsEncoded, IndexPairs(separators, handles))
  {
    var pairs := IndexPairs(separators, handles);
    forall b | 0 <= b < |pairs|
      ensures InternalKeys.IsEncoded(pairs[b].key)
    {
      SeparatorIsAfter(blocks, separators, b, 0);
    }
    forall b, c | 0 <= b < c < |pairs|
      ensures InternalKeys.Compare(pairs[b].key, pairs[c].key) < 0
    {
      SeparatorIsBefore(blocks, separators, b, c, 0);
      SeparatorIsAfter(blocks, separators, b, 0);
      SeparatorIsAfter(blocks, separators, c, 0);
      InternalKeys.CompareIsOrder(separators[b], blocks[c][0].key, separators[c]);
      InternalKeys.CompareIsOrder(blocks[c][0].key, separators[c], separators[b]);
    }
  }

  lemma BlockAscends(blocks: seq<seq<Pair>>, b: nat)
    requires TableSearch.Increasing(blocks) && b < |blocks|
    ensures Blocks.Ascending(InternalKeys.Compare, InternalKeys.IsEncoded, blocks[b])
  {
  }

  /** The pair is in the table and not before k. */
  ghost predicate Candidate(blocks: seq<seq<Pair>>, k: Key, b: nat, i: nat) {
    b < |blocks| && i < |blocks[b]| && InternalKeys.IsEncoded(blocks[b][i].key)
      && InternalKeys.Compare(blocks[b][i].key, k) >= 0
  }

  ghost predicate SameUser(blocks: seq<seq<Pair>>, k: Key, b: nat, i: nat)
    requires InternalKeys.IsEncoded(k) && Candidate(blocks, k, b, i)
  {
    InternalKeys.UserKeyOf(blocks[b][i].key) == InternalKeys.UserKeyOf(k)
  }

  /** The search found the first pair of k's user key that is not before k, if the table holds any. */
  ghost predicate FoundFirst(blocks: seq<seq<Pair>>, k: Key, r: Option<Pair>)
    requires InternalKeys.IsEncoded(k)
  {
    && (r.Some? ==> exists b: nat, i: nat :: Candidate(blocks, k, b, i) && blocks[b][i] == r.value)
    && forall b: nat, i: nat | Candidate(blocks, k, b, i) && SameUser(blocks, k, b, i) ::
         && r.Some? && InternalKeys.IsEncoded(r.value.key)
         && InternalKeys.UserKeyOf(r.value.key) == InternalKeys.UserKeyOf(k)
         && InternalKeys.Compare(r.value.key, blocks[b][i].key) <= 0
  }

  /**
   What one seek in the index and one in the block it names find, whether or not the filter lets the block be read.
   */
  lemma SeeksFindFirst(blocks: seq<seq<Pair>>, separators: seq<Key>, k: Key, b: nat, j: nat)
    requires Indexed(blocks, separators) && InternalKeys.IsEncoded(k)
    requires b <= |blocks| && forall n | 0 <= n < b :: InternalKeys.Compare(separators[n], k) < 0
    requires b < |blocks| ==> InternalKeys.Compare(separators[b], k) >= 0
    requires b < |blocks| ==> j <= |blocks[b]| && forall n | 0 <= n < j :: InternalKeys.Compare(blocks[b][n].key, k) < 0
    requires b < |blocks| && j < |blocks[b]| ==> InternalKeys.Compare(blocks[b][j].key, k) >= 0
    ensures FoundFirst(blocks, k, if b < |blocks| && j < |blocks[b]| then Some(blocks[b][j]) else None)
  {
    var r := if b < |blocks| && j < |blocks[b]| then Some(blocks[b][j]) else None;
    forall c: nat, i: nat | Candidate(blocks, k, c, i) && SameUser(blocks, k, c, i)
      ensures r.Some? && InternalKeys.IsEncoded(r.value.key)
              && InternalKeys.UserKeyOf(r.value.key) == InternalKeys.UserKeyOf(k)
              && InternalKeys.Compare(r.value.key, blocks[c][i].key) <= 0
    {
      SearchIsComplete(blocks, separators, k, b, j, c, i);
    }
    if r.Some? {
      assert Candidate(blocks, k, b, j);
    }
  }

  /** ReadBlock, of a file that was not damaged. */
  method ReadBlock(file: seq<Byte>, h: Handle) returns (contents: seq<Byte>)
    requires h.offset + h.size + TRAILER_SIZE <= |file|
    ensures contents == file[h.offset..h.offset + h.size]
  {
    contents := file[h.offset..h.offset + h.size];
  }

  /** The index entry for k: the handle of the first block whose separator is not before k. */
  method SearchIndex(ghost sum: Sum, ghost hash: Bloom.Hash, t: Table, k: Key, ghost blocks: seq<seq<Pair>>,
                     ghost handles: seq<Handle>, ghost separators: seq<Key>)
    returns (handle: Option<Handle>, ghost b: nat)
    requires IsTable(sum, hash, t, blocks, handles, separators)
    requires InternalKeys.IsEncoded(k)
    ensures b <= |blocks| && forall n | 0 <= n < b :: InternalKeys.Compare(separators[n], k) < 0
    ensures b < |blocks| ==> InternalKeys.Compare(separators[b], k) >= 0
    ensures handle == if b < |blocks| then Some(handles[b]) else None
  {
    SeparatorsAscend(blocks, separators, handles);
    ghost var pairs := IndexPairs(separators, handles);
    var iiter := OpenIter(t.index, pairs);
    var entry := SeekIn(iiter, k);
    b := iiter.at;
    assert forall n | 0 <= n < b :: InternalKeys.Compare(pairs[n].key, k) < 0 && pairs[n].key == separators[n];
    if entry.None? {
      return None, b;
    }
    assert HoldsBlock(sum, t.file, handles[b], blocks[b]);
    var h := ReadHandle(entry.value.value, handles[b]);
    handle := Some(h);
  }

  /** BlockReader, and a seek in the block. */
  method SearchBlock(ghost sum: Sum, file: seq<Byte>, handle: Handle, k: Key, ghost blocks: seq<seq<Pair>>,
                     ghost b: nat)
    returns (r: Option<Pair>, ghost j: nat)
    requires TableSearch.Increasing(blocks) && b < |blocks| && HoldsBlock(sum, file, handle, blocks[b])
    requires InternalKeys.IsEncoded(k)
    ensures j <= |blocks[b]| && forall n | 0 <= n < j :: InternalKeys.Compare(blocks[b][n].key, k) < 0
    ensures j < |blocks[b]| ==> InternalKeys.Compare(blocks[b][j].key, k) >= 0
    ensures r == if j < |blocks[b]| then Some(blocks[b][j]) else None
  {
    var contents := ReadBlock(file, handle);
    BlockAscends(blocks, b);
    var iter := OpenIter(contents, blocks[b]);
    r := SeekIn(iter, k);
    j := iter.at;
  }

  /** Table::InternalGet. */
  method InternalGet(ghost sum: Sum, hash: Bloom.Hash, t: Table, k: Key, ghost blocks: seq<seq<Pair>>,
                     ghost handles: seq<Handle>, ghost separators: seq<Key>)
    returns (r: Option<Pair>)
    requires IsTable(sum, hash, t, blocks, handles, separators)
    requires InternalKeys.IsEncoded(k)
    ensures FoundFirst(blocks, k, r)
  {
    var handle;
    ghost var b, j;
    handle, b := SearchIndex(sum, hash, t, k, blocks, handles, separators);
    if handle.None? {
      SeeksFindFirst(blocks, separators, k, b, 0);
      return None;
    }
    var mayMatch := true;
    if t.filter.Some? {
      mayMatch := FilterBlocks.KeyMayMatch(hash, t.filter.value, handle.value.offset, k);
    }
    if !mayMatch {
      j := FirstNotBefore(blocks, b, k);
      SeeksFindFirst(blocks, separators, k, b, j);
      RejectedIsAbsent(hash, t, blocks, handles, k, b, j);
      return None;
    }
    assert HoldsBlock(sum, t.file, handles[b], blocks[b]);
    r, j := SearchBlock(sum, t.file, handle.value, k, blocks, b);
    SeeksFindFirst(blocks, separators, k, b, j);
  }

  lemma FirstNotBefore(blocks: seq<seq<Pair>>, b: nat, k: Key) returns (j: nat)
    requires b < |blocks|
    ensures j <= |blocks[b]| && forall n | 0 <= n < j :: InternalKeys.Compare(blocks[b][n].key, k) < 0
    ensures j < |blocks[b]| ==> InternalKeys.Compare(blocks[b][j].key, k) >= 0
  {
    j := 0;
    while j < |blocks[b]| && InternalKeys.Compare(blocks[b][j].key, k) < 0
      invariant j <= |blocks[b]| && forall n | 0 <= n < j :: InternalKeys.Compare(blocks[b][n].key, k) < 0
    {
      j := j + 1;
    }
  }

  /** If the filter rejects k, then what the block holds at or after k has another user key. */
  lemma RejectedIsAbsent(hash: Bloom.Hash, t: Table, blocks: seq<seq<Pair>>, handles: seq<Handle>, k: Key, b: nat,
                         j: nat)
    requires TableSearch.Increasing(blocks) && |handles| == |blocks| && InternalKeys.IsEncoded(k)
    requires t.filter.Some? && FilterKnows(hash, t.filter.value, blocks, handles)
    requires b < |blocks| && j <= |blocks[b]|
    requires !FilterBlocks.MayMatch(hash, t.filter.value, handles[b].offset, InternalKeys.UserKeyOf(k))
    requires FoundFirst(blocks, k, if j < |blocks[b]| then Some(blocks[b][j]) else None)
    ensures FoundFirst(blocks, k, None)
  {
    assert j < |blocks[b]| ==>
      FilterBlocks.MayMatch(hash, t.filter.value, handles[b].offset, InternalKeys.UserKeyOf(blocks[b][j].key));
  }
}
