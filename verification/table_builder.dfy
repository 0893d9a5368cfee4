/**
 TableBuilder: data blocks, index entries held back until the next key is known, and the filter. What Finish returns is
 a table of exactly the pairs that were added (table_builder.cc).
 */
module TableBuilding {
  import opened BlockBuilding
  import opened Blocks
  import opened Coding
  import opened Keys
  import opened Reads
  import opened TableSearch
  import opened Tables
  import Bloom
  import Comparator
  import FilterBlocks
  import InternalKeys

  // ---------------------------------------------------------------- what has been written

  /** The blocks written so far, where, the separators chosen for all but maybe the last, and the block being filled. */
  datatype Written = Written(blocks: seq<seq<Pair>>, handles: seq<Handle>, separators: seq<Key>, filling: seq<Pair>)

  ghost predicate InFile(sum: Sum, file: seq<Byte>, w: Written) {
    && |w.handles| == |w.blocks|
    && forall b {:trigger HoldsBlock(sum, file, w.handles[b], w.blocks[b])} | 0 <= b < |w.blocks| ::
         HoldsBlock(sum, file, w.handles[b], w.blocks[b])
  }

  ghost predicate InOrder(w: Written) {
    && (forall b | 0 <= b < |w.blocks| :: |w.blocks[b]| > 0)
    && Increasing(w.blocks + [w.filling])
    && |w.separators| <= |w.blocks|
    && forall b {:trigger w.separators[b]} | 0 <= b < |w.separators| ::
         IsSeparator(w.blocks[b][|w.blocks[b]| - 1].key, w.separators[b], w.blocks + [w.filling], b)
  }

  function LastKeyOf(w: Written): Key
    requires forall b | 0 <= b < |w.blocks| :: |w.blocks[b]| > 0
  {
    if w.filling != [] then w.filling[|w.filling| - 1].key
    else if w.blocks != [] then
      var last := w.blocks[|w.blocks| - 1];
      last[|last| - 1].key
    else []
  }

  /** All pairs, in order. */
  ghost function Flat(w: Written): seq<Pair> {
    FlatBlocks(w.blocks) + w.filling
  }

  ghost function FlatBlocks(blocks: seq<seq<Pair>>): seq<Pair> {
    if blocks == [] then [] else FlatBlocks(blocks[..|blocks| - 1]) + blocks[|blocks| - 1]
  }

  /** The filter was given every key, while the file stood where the key's block starts. */
  ghost predicate Filtered(added: set<FilterBlocks.Added>, w: Written, offset: nat)
    requires InOrder(w) && |w.handles| == |w.blocks|
  {
    && (forall b, i | 0 <= b < |w.blocks| && 0 <= i < |w.blocks[b]| ::
          KeyAdded(added, w.handles[b].offset, w.blocks[b][i].key))
    && (forall i | 0 <= i < |w.filling| :: KeyAdded(added, offset, w.filling[i].key))
  }

  ghost predicate KeyAdded(added: set<FilterBlocks.Added>, offset: nat, key: Key) {
    InternalKeys.IsEncoded(key) && FilterBlocks.Added.Added(offset, key) in added
  }

  lemma FileGrows(sum: Sum, file: seq<Byte>, more: seq<Byte>, w: Written)
    requires InFile(sum, file, w)
    ensures InFile(sum, file + more, w)
  {
    forall b | 0 <= b < |w.blocks|
      ensures HoldsBlock(sum, file + more, w.handles[b], w.blocks[b])
    {
      BlockStays(sum, file, more, w.handles[b], w.blocks[b]);
    }
  }

  lemma BlockStays(sum: Sum, file: seq<Byte>, more: seq<Byte>, h: Handle, pairs: seq<Pair>)
    requires HoldsBlock(sum, file, h, pairs)
    ensures HoldsBlock(sum, file + more, h, pairs)
  {
    var e := h.offset + h.size;
    assert (file + more)[h.offset..e] == file[h.offset..e];
    assert (file + more)[e..e + TRAILER_SIZE] == file[e..e + TRAILER_SIZE];
  }

  /** A block written at the end of the file. */
  lemma BlockAtEnd(sum: Sum, file: seq<Byte>, contents: seq<Byte>, pairs: seq<Pair>)
    requires IsBlockOf(contents, pairs) && |file| < TWO_64 && |contents| < TWO_64
    ensures HoldsBlock(sum, file + (contents + BlockTrailer(sum, contents)), Handle(|file|, |contents|), pairs)
  {
    var after := file + (contents + BlockTrailer(sum, contents));
    assert after[|file|..|file| + |contents|] == contents;
    assert after[|file| + |contents|..|after|] == BlockTrailer(sum, contents);
  }

  // ---------------------------------------------------------------- one pair, one block

  /** The last key of a block, the separator after it, and the first key of the next. */
  ghost predicate Between(last: Key, separator: Key, next: Key) {
    && InternalKeys.IsEncoded(last) && InternalKeys.IsEncoded(separator) && InternalKeys.IsEncoded(next)
    && (separator == last
        || (Comparator.Compare(InternalKeys.UserKeyOf(last), InternalKeys.UserKeyOf(separator)) < 0
            && Comparator.Compare(InternalKeys.UserKeyOf(separator), InternalKeys.UserKeyOf(next)) < 0))
  }

  function WithSeparator(w: Written, separator: Option<Key>): Written {
    if separator.Some? then w.(separators := w.separators + [separator.value]) else w
  }

  /** The separator that the key calls for: one after a block that was just written, none otherwise. */
  ghost predicate Separated(w: Written, separator: Option<Key>, key: Key)
    requires InOrder(w)
  {
    if separator.Some? then
      w.filling == [] && |w.blocks| == |w.separators| + 1 && Between(LastKeyOf(w), separator.value, key)
    else
      |w.blocks| == |w.separators| && (w.filling == [] ==> w.blocks == [])
  }

  function WithPair(w: Written, separator: Option<Key>, p: Pair): Written {
    WithSeparator(w, separator).(filling := w.filling + [p])
  }

  /** The key comes after all others. */
  ghost predicate Follows(w: Written, key: Key)
    requires InOrder(w)
  {
    && InternalKeys.IsEncoded(key)
    && (w.blocks != [] || w.filling != [] ==> InternalKeys.Compare(LastKeyOf(w), key) < 0)
  }

  lemma PairFits(sum: Sum, file: seq<Byte>, w: Written, separator: Option<Key>, p: Pair, handle: Handle)
    requires InFile(sum, file, w) && InOrder(w) && Follows(w, p.key) && Separated(w, separator, p.key)
    ensures var v := WithPair(w, separator, p);
            && InFile(sum, file, v) && InOrder(v) && Pending(v, false, handle)
            && LastKeyOf(v) == p.key && Flat(v) == Flat(w) + [p]
  {
    PairKeepsOrder(w, separator, p);
    FlatGrows(w, WithPair(w, separator, p), p);
  }

  lemma PairKeepsOrder(w: Written, separator: Option<Key>, p: Pair)
    requires InOrder(w) && Follows(w, p.key) && Separated(w, separator, p.key)
    ensures InOrder(WithPair(w, separator, p))
  {
    var v := WithPair(w, separator, p);
    PairKeepsIncreasing(w, p);
    var before: seq<seq<Pair>>, after: seq<seq<Pair>> := w.blocks + [w.filling], v.blocks + [v.filling];
    forall b | 0 <= b < |v.separators|
      ensures IsSeparator(v.blocks[b][|v.blocks[b]| - 1].key, v.separators[b], after, b)
    {
      if b < |w.separators| {
        assert v.separators[b] == w.separators[b];
        assert IsSeparator(w.blocks[b][|w.blocks[b]| - 1].key, w.separators[b], before, b);
      }
    }
  }

  lemma PairKeepsIncreasing(w: Written, p: Pair)
    requires InOrder(w) && Follows(w, p.key)
    ensures Increasing(w.blocks + [w.filling + [p]])
  {
    var before: seq<seq<Pair>>, after: seq<seq<Pair>> := w.blocks + [w.filling], w.blocks + [w.filling + [p]];
    forall b, i | 0 <= b < |before| && 0 <= i < |before[b]|
      ensures InternalKeys.Compare(before[b][i].key, p.key) < 0
    {
      LastIsLast(w, b, i);
      InternalKeys.CompareIsOrder(before[b][i].key, LastKeyOf(w), p.key);
    }
    AllEncoded(before, w.blocks, w.filling, p);
    WithinGrows(InternalKeys.Compare, w.blocks, w.filling, p);
    AcrossGrows(InternalKeys.Compare, w.blocks, w.filling, p);
  }

  lemma AllEncoded(before: seq<seq<Pair>>, blocks: seq<seq<Pair>>, filling: seq<Pair>, p: Pair)
    requires before == blocks + [filling] && InternalKeys.IsEncoded(p.key)
    requires forall b, i | 0 <= b < |before| && 0 <= i < |before[b]| :: InternalKeys.IsEncoded(before[b][i].key)
    ensures var after: seq<seq<Pair>> := blocks + [filling + [p]];
            forall b, i | 0 <= b < |after| && 0 <= i < |after[b]| :: InternalKeys.IsEncoded(after[b][i].key)
  {
    var after: seq<seq<Pair>> := blocks + [filling + [p]];
    forall b, i | 0 <= b < |after| && 0 <= i < |after[b]|
      ensures InternalKeys.IsEncoded(after[b][i].key)
    {
      assert i < |before[b]| ==> after[b][i] == before[b][i];
    }
  }

  /** A pair after all others keeps each block in order. */
  lemma WithinGrows(cmp: Order, blocks: seq<seq<Pair>>, filling: seq<Pair>, p: Pair)
    requires var before: seq<seq<Pair>> := blocks + [filling];
             && (forall b, i | 0 <= b < |before| && 0 <= i < |before[b]| :: cmp(before[b][i].key, p.key) < 0)
             && (forall b, i, j | 0 <= b < |before| && 0 <= i < j < |before[b]| ::
               cmp(before[b][i].key, before[b][j].key) < 0)
    ensures var after: seq<seq<Pair>> := blocks + [filling + [p]];
            forall b, i, j | 0 <= b < |after| && 0 <= i < j < |after[b]| :: cmp(after[b][i].key, after[b][j].key) < 0
  {
    var before: seq<seq<Pair>>, after: seq<seq<Pair>> := blocks + [filling], blocks + [filling + [p]];
    forall b, i, j | 0 <= b < |after| && 0 <= i < j < |after[b]|
      ensures cmp(after[b][i].key, after[b][j].key) < 0
    {
      assert after[b][i] == before[b][i];
      assert j < |before[b]| ==> after[b][j] == before[b][j];
    }
  }

  /** And the blocks among each other. */
  lemma AcrossGrows(cmp: Order, blocks: seq<seq<Pair>>, filling: seq<Pair>, p: Pair)
    requires var before: seq<seq<Pair>> := blocks + [filling];
             && (forall b, i | 0 <= b < |before| && 0 <= i < |before[b]| :: cmp(before[b][i].key, p.key) < 0)
             && (forall b, c, i, j | 0 <= b < c < |before| && 0 <= i < |before[b]| && 0 <= j < |before[c]| ::
                   cmp(before[b][i].key, before[c][j].key) < 0)
    ensures var after: seq<seq<Pair>> := blocks + [filling + [p]];
            forall b, c, i, j | 0 <= b < c < |after| && 0 <= i < |after[b]| && 0 <= j < |after[c]| ::
              cmp(after[b][i].key, after[c][j].key) < 0
  {
    var before: seq<seq<Pair>>, after: seq<seq<Pair>> := blocks + [filling], blocks + [filling + [p]];
    forall b, c, i, j | 0 <= b < c < |after| && 0 <= i < |after[b]| && 0 <= j < |after[c]|
      ensures cmp(after[b][i].key, after[c][j].key) < 0
    {
      assert after[b][i] == before[b][i];
      assert j < |before[c]| ==> after[c][j] == before[c][j];
    }
  }

  /** No key comes after the last key. */
  lemma LastIsLast(w: Written, b: nat, i: nat)
    requires InOrder(w) && b < |w.blocks + [w.filling]| && i < |(w.blocks + [w.filling])[b]|
    ensures w.blocks != [] || w.filling != []
    ensures InternalKeys.IsEncoded(LastKeyOf(w))
    ensures InternalKeys.Compare((w.blocks + [w.filling])[b][i].key, LastKeyOf(w)) <= 0
  {
    var all: seq<seq<Pair>> := w.blocks + [w.filling];
    assert w.blocks != [] || w.filling != [] by { assert b < |w.blocks| ==> all[b] == w.blocks[b]; }
    var l := if w.filling != [] then |w.blocks| else |w.blocks| - 1;
    assert all[l][|all[l]| - 1].key == LastKeyOf(w);
    assert b <= l;
    LastOfBlocks(all, l, b, i);
  }

  lemma LastOfBlocks(all: seq<seq<Pair>>, l: nat, b: nat, i: nat)
    requires Increasing(all) && b <= l < |all| && i < |all[b]| && |all[l]| > 0
    ensures InternalKeys.Compare(all[b][i].key, all[l][|all[l]| - 1].key) <= 0
  {
    var last := all[l][|all[l]| - 1].key;
    InternalKeys.CompareIsOrder(last, last, last);
  }

  lemma BlockKeepsOrder(w: Written, h: Handle)
    requires InOrder(w) && w.filling != [] && |w.separators| == |w.blocks|
    ensures InOrder(Written.Written(w.blocks + [w.filling], w.handles + [h], w.separators, []))
  {
    var v := Written.Written(w.blocks + [w.filling], w.handles + [h], w.separators, []);
    var before: seq<seq<Pair>>, after: seq<seq<Pair>> := w.blocks + [w.filling], v.blocks + [v.filling];
    assert forall b | 0 <= b < |after| && |after[b]| > 0 :: b < |before| && after[b] == before[b];
    forall b | 0 <= b < |v.separators|
      ensures IsSeparator(v.blocks[b][|v.blocks[b]| - 1].key, v.separators[b], after, b)
    {
      assert IsSeparator(w.blocks[b][|w.blocks[b]| - 1].key, w.separators[b], before, b);
    }
  }

  lemma FlatGrows(w: Written, v: Written, p: Pair)
    requires v.blocks == w.blocks && v.filling == w.filling + [p]
    ensures Flat(v) == Flat(w) + [p]
  {
  }

  lemma FilteredGrows(added: set<FilterBlocks.Added>, more: set<FilterBlocks.Added>, w: Written, v: Written,
                      offset: nat, p: Pair)
    requires InOrder(w) && |w.handles| == |w.blocks| && Filtered(added, w, offset)
    requires InOrder(v) && v.blocks == w.blocks && v.handles == w.handles && v.filling == w.filling + [p]
    requires InternalKeys.IsEncoded(p.key) && more == added + {FilterBlocks.Added.Added(offset, p.key)}
    ensures Filtered(more, v, offset)
  {
    forall i | 0 <= i < |v.filling|
      ensures KeyAdded(more, offset, v.filling[i].key)
    {
      if i < |w.filling| {
        assert KeyAdded(added, offset, w.filling[i].key);
      }
    }
    forall b, i | 0 <= b < |v.blocks| && 0 <= i < |v.blocks[b]|
      ensures KeyAdded(more, v.handles[b].offset, v.blocks[b][i].key)
    {
      assert KeyAdded(added, w.handles[b].offset, w.blocks[b][i].key);
    }
  }

  /** The state after the block being filled has been written. */
  function Flushed(w: Written, handle: Handle): Written {
    Written.Written(w.blocks + [w.filling], w.handles + [handle], w.separators, [])
  }

  lemma BlockAppended(sum: Sum, file: seq<Byte>, contents: seq<Byte>, w: Written, handle: Handle)
    requires InFile(sum, file, w) && IsBlockOf(contents, w.filling)
    requires |file| < TWO_64 && |contents| < TWO_64 && handle == Handle(|file|, |contents|)
    ensures InFile(sum, file + (contents + BlockTrailer(sum, contents)), Flushed(w, handle))
  {
    var after := file + (contents + BlockTrailer(sum, contents));
    var v := Flushed(w, handle);
    FileGrows(sum, file, contents + BlockTrailer(sum, contents), w);
    BlockAtEnd(sum, file, contents, w.filling);
    forall b | 0 <= b < |v.blocks|
      ensures HoldsBlock(sum, after, v.handles[b], v.blocks[b])
    {
      if b < |w.blocks| {
        assert HoldsBlock(sum, after, w.handles[b], w.blocks[b]);
      }
    }
  }

  lemma FlushKeeps(w: Written, handle: Handle)
    requires InOrder(w) && w.filling != [] && |w.separators| == |w.blocks| == |w.handles|
    ensures InOrder(Flushed(w, handle)) && Flat(Flushed(w, handle)) == Flat(w)
    ensures LastKeyOf(Flushed(w, handle)) == LastKeyOf(w)
    ensures IndexPairs(w.separators, Flushed(w, handle).handles) == IndexPairs(w.separators, w.handles)
    ensures Pending(Flushed(w, handle), true, handle)
  {
    BlockKeepsOrder(w, handle);
    assert (w.blocks + [w.filling])[..|w.blocks|] == w.blocks;
  }

  lemma FlushFiltered(added: set<FilterBlocks.Added>, w: Written, offset: nat, handle: Handle, next: nat)
    requires InOrder(w) && |w.handles| == |w.blocks| && Filtered(added, w, offset)
    requires InOrder(Flushed(w, handle)) && handle.offset == offset
    ensures Filtered(added, Flushed(w, handle), next)
  {
    var v := Flushed(w, handle);
    forall b, i | 0 <= b < |v.blocks| && 0 <= i < |v.blocks[b]|
      ensures KeyAdded(added, v.handles[b].offset, v.blocks[b][i].key)
    {
      if b < |w.blocks| {
        assert KeyAdded(added, w.handles[b].offset, w.blocks[b][i].key);
      } else {
        assert KeyAdded(added, offset, w.filling[i].key);
      }
    }
  }

  lemma NoBlocks(w: Written)
    requires InOrder(w) && w.filling == [] && w.blocks == [] && w.separators == []
    ensures Indexed(w.blocks, w.separators)
  {
  }

  /** The last key of the last block, and the separator after it. */
  ghost predicate AtOrPast(last: Key, separator: Key) {
    && InternalKeys.IsEncoded(last) && InternalKeys.IsEncoded(separator)
    && (separator == last
        || Comparator.Compare(InternalKeys.UserKeyOf(last), InternalKeys.UserKeyOf(separator)) < 0)
  }

  lemma LastSeparator(w: Written, separator: Key)
    requires InOrder(w) && w.filling == [] && |w.blocks| == |w.separators| + 1
    requires AtOrPast(LastKeyOf(w), separator)
    ensures Indexed(w.blocks, w.separators + [separator])
  {
    var separators := w.separators + [separator];
    var padded: seq<seq<Pair>> := w.blocks + [w.filling];
    assert forall b | 0 <= b < |w.blocks| :: padded[b] == w.blocks[b];
    forall b | 0 <= b < |w.blocks|
      ensures IsSeparator(w.blocks[b][|w.blocks[b]| - 1].key, separators[b], w.blocks, b)
    {
      if b < |w.separators| {
        assert IsSeparator(w.blocks[b][|w.blocks[b]| - 1].key, w.separators[b], padded, b);
      }
    }
  }

  /** A finished filter does not reject the keys it was given. */
  lemma FilterIsKnowing(hash: Bloom.Hash, filter: seq<Byte>, added: set<FilterBlocks.Added>, w: Written, offset: nat)
    requires InOrder(w) && |w.handles| == |w.blocks| && Filtered(added, w, offset)
    requires forall a | a in added :: FilterBlocks.MayMatch(hash, filter, a.offset, InternalKeys.UserKeyOf(a.key))
    ensures Increasing(w.blocks) && FilterKnows(hash, filter, w.blocks, w.handles)
  {
    var padded: seq<seq<Pair>> := w.blocks + [w.filling];
    assert forall b | 0 <= b < |w.blocks| :: padded[b] == w.blocks[b];
    forall b, i | 0 <= b < |w.blocks| && 0 <= i < |w.blocks[b]|
      ensures FilterBlocks.MayMatch(hash, filter, w.handles[b].offset, InternalKeys.UserKeyOf(w.blocks[b][i].key))
    {
      assert KeyAdded(added, w.handles[b].offset, w.blocks[b][i].key);
    }
  }

  // ---------------------------------------------------------------- the builder

  /** File offsets are 64-bit numbers: there is room for one more block of any size. */
  predicate Room(file: seq<Byte>) {
    |file| + 2 * TWO_32 < TWO_64
  }

  ghost predicate Pending(w: Written, pending: bool, handle: Handle)
    requires |w.handles| == |w.blocks|
  {
    if pending then
      w.filling == [] && |w.blocks| == |w.separators| + 1 && handle == w.handles[|w.blocks| - 1]
    else
      |w.blocks| == |w.separators| && (w.filling == [] ==> w.blocks == [])
  }

  lemma PendingIsShort(sum: Sum, file: seq<Byte>, w: Written, handle: Handle)
    requires InFile(sum, file, w) && Pending(w, true, handle)
    ensures |EncodeHandle(handle)| <= 20
  {
    assert HoldsBlock(sum, file, w.handles[|w.blocks| - 1], w.blocks[|w.blocks| - 1]);
    HandleRoundTrip(handle);
  }

  lemma OneMorePair(pairs: seq<Pair>, p: Pair)
    ensures SizeBound(pairs + [p]) == SizeBound(pairs) + |p.key| + |p.value| + 19
  {
    assert (pairs + [p])[..|pairs|] == pairs;
  }

  lemma OneMoreEntry(sum: Sum, file: seq<Byte>, w: Written, handle: Handle, separator: Key)
    requires InFile(sum, file, w) && Pending(w, true, handle)
    ensures |w.separators| < |w.blocks|
    ensures var index := IndexPairs(w.separators, w.handles);
            var grown := IndexPairs(w.separators + [separator], w.handles);
            && index + [Pair(separator, EncodeHandle(handle))] == grown
            && SizeBound(grown) <= SizeBound(index) + |separator| + 39
  {
    PendingIsShort(sum, file, w, handle);
    OneMorePair(IndexPairs(w.separators, w.handles), Pair(separator, EncodeHandle(handle)));
  }

  lemma LastIsEncoded(w: Written)
    requires InOrder(w) && w.filling == [] && w.blocks != []
    ensures InternalKeys.IsEncoded(LastKeyOf(w))
  {
    LastIsLast(w, |w.blocks| - 1, 0);
  }

  method Separate(last: Key, next: Key) returns (separator: Key)
    requires InternalKeys.IsEncoded(last) && InternalKeys.IsEncoded(next) && InternalKeys.Compare(last, next) < 0
    ensures Between(last, separator, next) && |separator| <= |last|
  {
    separator := InternalKeys.FindShortestSeparator(last, next);
  }

  method Succeed(last: Key) returns (separator: Key)
    requires InternalKeys.IsEncoded(last)
    ensures AtOrPast(last, separator) && |separator| <= |last|
  {
    separator := InternalKeys.FindShortSuccessor(last);
  }

  class TableBuilder {
    const sum: Sum
    const restartInterval: nat
    const filterBlock: FilterBlocks.FilterBlockBuilder?
    var file: seq<Byte>
    var dataBlock: seq<Pair>
    var indexBlock: seq<Pair>
    var lastKey: Key
    var pendingIndexEntry: bool
    var pendingHandle: Handle
    var closed: bool
    ghost var w: Written

    ghost predicate Valid()
      reads this, filterBlock
    {
      && restartInterval >= 1 && !closed
      && InFile(sum, file, w) && InOrder(w)
      && dataBlock == w.filling && SizeBound(dataBlock) < TWO_32
      && Pending(w, pendingIndexEntry, pendingHandle)
      && lastKey == LastKeyOf(w)
      && indexBlock == IndexPairs(w.separators, w.handles)
      && FilterOk()
    }

    ghost predicate FilterOk()
      requires InFile(sum, file, w) && InOrder(w)
      reads this`file, this`w, filterBlock
    {
      filterBlock != null ==>
        filterBlock.Valid() && filterBlock.current == |file| && Filtered(filterBlock.added, w, |file|)
    }

    constructor (sum: Sum, restartInterval: nat, filterBlock: FilterBlocks.FilterBlockBuilder?)
      requires restartInterval >= 1
      requires filterBlock != null ==> filterBlock.Valid() && filterBlock.added == {} && filterBlock.current == 0
      ensures Valid() && w == Written.Written([], [], [], []) && file == []
      ensures this.sum == sum && this.filterBlock == filterBlock
    {
      this.sum, this.restartInterval, this.filterBlock := sum, restartInterval, filterBlock;
      file, dataBlock, indexBlock, lastKey, pendingIndexEntry, pendingHandle, closed :=
        [], [], [], [], false, Handle(0, 0), false;
      w := Written.Written([], [], [], []);
    }

    /** A block, and its trailer, at the end of the file. */
    method WriteRawBlock(contents: seq<Byte>) returns (handle: Handle)
      modifies this`file
      ensures file == old(file) + (contents + BlockTrailer(sum, contents))
      ensures handle == Handle(|old(file)|, |contents|)
    {
      handle := Handle(|file|, |contents|);
      file := file + (contents + BlockTrailer(sum, contents));
    }

    /** Adds a pair; cut says whether the block's estimated size has reached the limit. */
    method Add(key: Key, value: Value, cut: bool)
      requires Valid() && InternalKeys.IsEncoded(key)
      requires w.blocks != [] || w.filling != [] ==> InternalKeys.Compare(lastKey, key) < 0
      requires SizeBound(dataBlock + [Pair(key, value)]) < TWO_32 && Room(file)
      modifies this, filterBlock
      ensures Valid() && lastKey == key
      ensures Flat(w) == old(Flat(w)) + [Pair(key, value)]
      ensures |file| + SizeBound(dataBlock) <= old(|file| + SizeBound(dataBlock)) + |key| + |value| + 32
      ensures SizeBound(indexBlock) <= old(SizeBound(indexBlock) + |lastKey|) + 39
    {
      AddToBlock(key, value);
      FlushIf(cut);
    }

    /** Add up to the question whether the block is full. */
    method AddToBlock(key: Key, value: Value)
      requires Valid() && Follows(w, key)
      requires SizeBound(dataBlock + [Pair(key, value)]) < TWO_32
      modifies this`lastKey, this`indexBlock, this`pendingIndexEntry, this`dataBlock, this`w, filterBlock
      ensures Valid() && lastKey == key
      ensures Flat(w) == old(Flat(w)) + [Pair(key, value)]
      ensures SizeBound(dataBlock) == old(SizeBound(dataBlock)) + |key| + |value| + 19
      ensures SizeBound(indexBlock) <= old(SizeBound(indexBlock) + |lastKey|) + 39
    {
      OneMorePair(dataBlock, Pair(key, value));
      ghost var separator := AddPendingEntry(key);
      AddPair(key, value, separator);
    }

    method FlushIf(cut: bool)
      requires Valid() && Room(file)
      modifies this, filterBlock
      ensures Valid() && Flat(w) == old(Flat(w))
      ensures indexBlock == old(indexBlock) && lastKey == old(lastKey)
      ensures |file| + SizeBound(dataBlock) <= old(|file| + SizeBound(dataBlock)) + 13
    {
      if cut {
        Flush();
      }
    }

    /** The rest of Add, after the pending index entry. */
    method AddPair(key: Key, value: Value, ghost separator: Option<Key>)
      requires restartInterval >= 1 && !closed && !pendingIndexEntry
      requires InFile(sum, file, w) && InOrder(w) && FilterOk()
      requires dataBlock == w.filling && SizeBound(dataBlock + [Pair(key, value)]) < TWO_32
      requires Follows(w, key) && Separated(w, separator, key)
      requires indexBlock == IndexPairs(WithSeparator(w, separator).separators, w.handles)
      modifies this`lastKey, this`dataBlock, this`w, filterBlock
      ensures Valid() && Flat(w) == old(Flat(w)) + [Pair(key, value)]
      ensures lastKey == key && dataBlock == old(dataBlock) + [Pair(key, value)]
    {
      var pair := Pair(key, value);
      ghost var v := WithPair(w, separator, pair);
      PairFits(sum, file, w, separator, pair, pendingHandle);
      FilterPair(pair, v);
      SetFilling(key, dataBlock + [pair], v);
    }

    /** The filter gets the pair's key. */
    method FilterPair(pair: Pair, ghost v: Written)
      requires InFile(sum, file, w) && InOrder(w) && FilterOk() && InOrder(v) && InternalKeys.IsEncoded(pair.key)
      requires v.blocks == w.blocks && v.handles == w.handles && v.filling == w.filling + [pair]
      modifies filterBlock
      ensures filterBlock != null ==>
                filterBlock.Valid() && filterBlock.current == |file| && Filtered(filterBlock.added, v, |file|)
    {
      if filterBlock != null {
        ghost var before := filterBlock.added;
        filterBlock.AddKey(pair.key);
        FilteredGrows(before, filterBlock.added, w, v, |file|, pair);
      }
    }

    method SetFilling(key: Key, pairs: seq<Pair>, ghost v: Written)
      requires restartInterval >= 1 && !closed && !pendingIndexEntry
      requires InFile(sum, file, v) && InOrder(v) && Pending(v, false, pendingHandle)
      requires pairs == v.filling && SizeBound(pairs) < TWO_32
      requires key == LastKeyOf(v) && indexBlock == IndexPairs(v.separators, v.handles)
      requires filterBlock != null ==>
                 filterBlock.Valid() && filterBlock.current == |file| && Filtered(filterBlock.added, v, |file|)
      modifies this`lastKey, this`dataBlock, this`w
      ensures Valid() && w == v && lastKey == key && dataBlock == pairs
    {
      lastKey := key;
      dataBlock := pairs;
      w := v;
    }

    /** The pending index entry, if there is one. */
    method AddPendingEntry(key: Key) returns (ghost separator: Option<Key>)
      requires InFile(sum, file, w) && InOrder(w) && Pending(w, pendingIndexEntry, pendingHandle)
      requires lastKey == LastKeyOf(w) && indexBlock == IndexPairs(w.separators, w.handles)
      requires Follows(w, key)
      modifies this`lastKey, this`indexBlock, this`pendingIndexEntry
      ensures !pendingIndexEntry && Separated(w, separator, key)
      ensures indexBlock == IndexPairs(WithSeparator(w, separator).separators, w.handles)
      ensures SizeBound(indexBlock) <= old(SizeBound(indexBlock) + |lastKey|) + 39
    {
      separator := None;
      if pendingIndexEntry {
        LastIsEncoded(w);
        separator := AddIndexEntry(key);
      }
    }

    /** The index entry of the last block, now that the next key is known. */
    method AddIndexEntry(key: Key) returns (ghost separator: Option<Key>)
      requires InFile(sum, file, w) && Pending(w, true, pendingHandle)
      requires indexBlock == IndexPairs(w.separators, w.handles)
      requires InternalKeys.IsEncoded(lastKey) && InternalKeys.IsEncoded(key) && InternalKeys.Compare(lastKey, key) < 0
      modifies this`lastKey, this`indexBlock, this`pendingIndexEntry
      ensures separator.Some? && Between(old(lastKey), separator.value, key) && !pendingIndexEntry
      ensures indexBlock == IndexPairs(w.separators + [separator.value], w.handles)
      ensures SizeBound(indexBlock) <= old(SizeBound(indexBlock) + |lastKey|) + 39
    {
      var found := Separate(lastKey, key);
      separator := Some(found);
      OneMoreEntry(sum, file, w, pendingHandle, found);
      lastKey := found;
      indexBlock := indexBlock + [Pair(found, EncodeHandle(pendingHandle))];
      pendingIndexEntry := false;
    }

    method Flush()
      requires Valid()
      requires Room(file)
      modifies this, filterBlock
      ensures Valid() && w.filling == [] && Flat(w) == old(Flat(w))
      ensures indexBlock == old(indexBlock) && lastKey == old(lastKey)
      ensures |file| <= old(|file| + SizeBound(dataBlock)) + 5
    {
      if dataBlock == [] {
        return;
      }
      ghost var before, start := w, |file|;
      var handle := WriteDataBlock();
      FlushKeeps(before, handle);
      if filterBlock != null {
        FlushFiltered(filterBlock.added, before, start, handle, |file|);
        filterBlock.StartBlock(|file|);
      }
      SetPending(handle, Flushed(before, handle));
    }

    method SetPending(handle: Handle, ghost v: Written)
      requires restartInterval >= 1 && !closed
      requires InFile(sum, file, v) && InOrder(v) && Pending(v, true, handle)
      requires lastKey == LastKeyOf(v) && indexBlock == IndexPairs(v.separators, v.handles)
      requires filterBlock != null ==>
                 filterBlock.Valid() && filterBlock.current == |file| && Filtered(filterBlock.added, v, |file|)
      modifies this`pendingHandle, this`dataBlock, this`pendingIndexEntry, this`w
      ensures Valid() && w == v
    {
      pendingHandle := handle;
      dataBlock := [];
      pendingIndexEntry := true;
      w := v;
    }

    /** WriteBlock, of the data block. */
    method WriteDataBlock() returns (handle: Handle)
      requires restartInterval >= 1 && dataBlock == w.filling != [] && SizeBound(dataBlock) < TWO_32 && Room(file)
      requires InFile(sum, file, w)
      modifies this`file
      ensures InFile(sum, file, Flushed(w, handle)) && handle.offset == |old(file)| <= |file|
      ensures |file| <= |old(file)| + SizeBound(dataBlock) + 5
    {
      var contents;
      ghost var entries, l;
      contents, entries, l := Build(restartInterval, dataBlock);
      assert IsBlockOf(contents, dataBlock) by { assert HasLayout(contents, |entries|, l); }
      ghost var before := file;
      handle := WriteRawBlock(contents);
      BlockAppended(sum, before, contents, w, handle);
    }

    /** The last index entry: nothing follows it, so any later key separates. */
    method AddLastIndexEntry() returns (ghost separators: seq<Key>)
      requires InFile(sum, file, w) && InOrder(w) && w.filling == []
      requires Pending(w, pendingIndexEntry, pendingHandle)
      requires lastKey == LastKeyOf(w) && indexBlock == IndexPairs(w.separators, w.handles)
      modifies this`lastKey, this`indexBlock, this`pendingIndexEntry
      ensures Indexed(w.blocks, separators)
      ensures indexBlock == IndexPairs(separators, w.handles)
      ensures SizeBound(indexBlock) <= old(SizeBound(indexBlock) + |lastKey|) + 39
    {
      separators := w.separators;
      if pendingIndexEntry {
        LastIsEncoded(w);
        var found := Succeed(lastKey);
        separators := w.separators + [found];
        LastSeparator(w, found);
        OneMoreEntry(sum, file, w, pendingHandle, found);
        lastKey := found;
        indexBlock := indexBlock + [Pair(found, EncodeHandle(pendingHandle))];
        pendingIndexEntry := false;
      } else {
        NoBlocks(w);
      }
    }

    /** Writes the filter block, if there is one. */
    method FinishFilter() returns (filter: Option<seq<Byte>>)
      requires InFile(sum, file, w) && InOrder(w) && FilterOk()
      modifies this`file, filterBlock
      ensures InFile(sum, file, w)
      ensures filter.Some? <==> filterBlock != null
      ensures filterBlock != null && |filter.value| < TWO_32 ==>
                Increasing(w.blocks) && FilterKnows(filterBlock.hash, filter.value, w.blocks, w.handles)
    {
      filter := None;
      if filterBlock != null {
        ghost var added := filterBlock.added;
        ghost var before := file;
        var contents := filterBlock.Finish();
        if |contents| < TWO_32 {
          FilterIsKnowing(filterBlock.hash, contents, added, w, |file|);
        }
        filter := Some(contents);
        var handle := WriteRawBlock(contents);
        FileGrows(sum, before, contents + BlockTrailer(sum, contents), w);
      }
    }

    /** Writes the index block. */
    method FinishIndex() returns (index: seq<Byte>)
      requires InFile(sum, file, w) && SizeBound(indexBlock) < TWO_32
      modifies this`file
      ensures InFile(sum, file, w) && IsBlockOf(index, indexBlock)
    {
      ghost var before := file;
      ghost var entries, l;
      index, entries, l := Build(1, indexBlock);
      assert IsBlockOf(index, indexBlock) by { assert HasLayout(index, |entries|, l); }
      var handle := WriteRawBlock(index);
      FileGrows(sum, before, index + BlockTrailer(sum, index), w);
    }

    /** The filter block and the index block; the table as a reader opens it. */
    method Finish() returns (t: Table, ghost separators: seq<Key>)
      requires Valid() && Room(file)
      requires SizeBound(indexBlock) + |lastKey| + 39 < TWO_32
      modifies this, filterBlock
      ensures closed && w.filling == [] && FlatBlocks(w.blocks) == old(Flat(w))
      ensures t.filter.Some? <==> filterBlock != null
      ensures filterBlock != null && |t.filter.value| < TWO_32 ==>
                IsTable(sum, filterBlock.hash, t, w.blocks, w.handles, separators)
      ensures filterBlock == null ==> forall hash :: IsTable(sum, hash, t, w.blocks, w.handles, separators)
    {
      Flush();
      t, separators := FinishFlushed();
    }

    /** Finish, once the last data block has been written. */
    method FinishFlushed() returns (t: Table, ghost separators: seq<Key>)
      requires InFile(sum, file, w) && InOrder(w) && w.filling == [] && FilterOk()
      requires Pending(w, pendingIndexEntry, pendingHandle)
      requires lastKey == LastKeyOf(w) && indexBlock == IndexPairs(w.separators, w.handles)
      requires SizeBound(indexBlock) + |lastKey| + 39 < TWO_32
      modifies this`closed, this`lastKey, this`indexBlock, this`pendingIndexEntry, this`file, filterBlock
      ensures closed
      ensures t.filter.Some? <==> filterBlock != null
      ensures filterBlock != null && |t.filter.value| < TWO_32 ==>
                IsTable(sum, filterBlock.hash, t, w.blocks, w.handles, separators)
      ensures filterBlock == null ==> forall hash :: IsTable(sum, hash, t, w.blocks, w.handles, separators)
    {
      closed := true;
      var filter := FinishFilter();
      t, separators := FinishTable(filter);
    }

    /** The rest of Finish, after the filter block. */
    method FinishTable(filter: Option<seq<Byte>>) returns (t: Table, ghost separators: seq<Key>)
      requires InFile(sum, file, w) && InOrder(w) && w.filling == []
      requires Pending(w, pendingIndexEntry, pendingHandle)
      requires lastKey == LastKeyOf(w) && indexBlock == IndexPairs(w.separators, w.handles)
      requires SizeBound(indexBlock) + |lastKey| + 39 < TWO_32
      modifies this`lastKey, this`indexBlock, this`pendingIndexEntry, this`file
      ensures t.filter == filter && Increasing(w.blocks)
      ensures forall hash {:trigger IsTable(sum, hash, t, w.blocks, w.handles, separators)} ::
                (filter.Some? ==> FilterKnows(hash, filter.value, w.blocks, w.handles))
                ==> IsTable(sum, hash, t, w.blocks, w.handles, separators)
    {
      separators := AddLastIndexEntry();
      var index := FinishIndex();
      t := Table(file, index, filter);
    }
  }
}
