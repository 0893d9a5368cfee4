/**
 TwoLevelIterator: an index of blocks and an iterator over one block at a time, run as one cursor over all the
 blocks end to end. Empty blocks, and seeks that land past a block's last entry, are skipped over.
 */
module TwoLevel {
  import opened Keys
  import opened Reads
  import opened Versions
  import opened Cursors

  /** The first n blocks end to end. */
  function Flat(blocks: seq<seq<Entry>>, n: nat): seq<Entry>
    requires n <= |blocks|
  {
    if n == 0 then [] else Flat(blocks, n - 1) + blocks[n - 1]
  }

  function All(blocks: seq<seq<Entry>>): seq<Entry> {
    Flat(blocks, |blocks|)
  }

  lemma {:induction false} FlatPrefix(blocks: seq<seq<Entry>>, n: nat, m: nat)
    requires n <= m <= |blocks|
    ensures Flat(blocks, n) <= Flat(blocks, m)
    decreases m
  {
    if n < m {
      FlatPrefix(blocks, n, m - 1);
    }
  }

  /** Where an entry of block n sits in the whole. */
  lemma EntryInFlat(blocks: seq<seq<Entry>>, n: nat, i: nat)
    requires n < |blocks| && i < |blocks[n]|
    ensures |Flat(blocks, n)| + i < |All(blocks)| && All(blocks)[|Flat(blocks, n)| + i] == blocks[n][i]
  {
    FlatPrefix(blocks, n + 1, |blocks|);
  }

  /** Index keys as a table or a level provides them: not before any entry of their block, before all later entries. */
  ghost predicate Separated(keys: seq<InternalKey>, blocks: seq<seq<Entry>>) {
    && |keys| == |blocks|
    && (forall n, i | 0 <= n < |blocks| && 0 <= i < |blocks[n]| :: !Less(keys[n], blocks[n][i].key))
    && (forall n, m, i | 0 <= n < m < |blocks| && 0 <= i < |blocks[m]| :: Less(keys[n], blocks[m][i].key))
  }

  lemma {:induction false} FlatBefore(keys: seq<InternalKey>, blocks: seq<seq<Entry>>, n: nat, target: InternalKey)
    requires Separated(keys, blocks) && n <= |blocks|
    requires forall k | 0 <= k < n :: Less(keys[k], target)
    ensures forall i | 0 <= i < |Flat(blocks, n)| :: Less(Flat(blocks, n)[i].key, target)
  {
    if n > 0 {
      FlatBefore(keys, blocks, n - 1, target);
      var last := blocks[n - 1];
      assert forall i | 0 <= i < |last| :: !Less(keys[n - 1], last[i].key);
    }
  }

  /** Seeking the index, then the block it names, splits the whole where a search of the whole would. */
  lemma SeekInFlat(keys: seq<InternalKey>, blocks: seq<seq<Entry>>, n: nat, i: nat, target: InternalKey)
    requires Separated(keys, blocks) && Ordered(All(blocks)) && n <= |blocks|
    requires forall k | 0 <= k < n :: Less(keys[k], target)
    requires n < |blocks| ==> !Less(keys[n], target) && i <= |blocks[n]|
    requires n < |blocks| ==> forall k | 0 <= k < i :: Less(blocks[n][k].key, target)
    requires n < |blocks| && i < |blocks[n]| ==> !Less(blocks[n][i].key, target)
    requires n == |blocks| ==> i == 0
    ensures |Flat(blocks, n)| + i == SeekIndex(All(blocks), target)
  {
    var all, start := All(blocks), |Flat(blocks, n)|;
    FlatPrefix(blocks, n, |blocks|);
    FlatBefore(keys, blocks, n, target);
    forall k | start <= k < start + i
      ensures k < |all| && Less(all[k].key, target)
    {
      EntryInFlat(blocks, n, k - start);
    }
    if n < |blocks| {
      NextIsAfter(keys, blocks, n, i, target);
    }
    assert forall k | 0 <= k < start :: all[k] == Flat(blocks, n)[k];
    SeekIsUnique(all, target, start + i);
  }

  /** What follows the first i entries of block n, there or in the blocks after it. */
  lemma NextIsAfter(keys: seq<InternalKey>, blocks: seq<seq<Entry>>, n: nat, i: nat, target: InternalKey)
    requires Separated(keys, blocks) && n < |blocks| && !Less(keys[n], target) && i <= |blocks[n]|
    requires i < |blocks[n]| ==> !Less(blocks[n][i].key, target)
    ensures |Flat(blocks, n)| + i <= |All(blocks)|
    ensures |Flat(blocks, n)| + i < |All(blocks)| ==> !Less(All(blocks)[|Flat(blocks, n)| + i].key, target)
  {
    if i < |blocks[n]| {
      EntryInFlat(blocks, n, i);
    } else {
      FlatPrefix(blocks, n + 1, |blocks|);
      FlatAfter(keys, blocks, n, |blocks|, target);
    }
  }

  lemma SeekIsUnique(es: seq<Entry>, target: InternalKey, g: nat)
    requires g <= |es| && (forall i | 0 <= i < g :: Less(es[i].key, target)) && (g < |es| ==> !Less(es[g].key, target))
    ensures SeekIndex(es, target) == g
  {
  }

  // ---------------------------------------------------------------- a level of files as blocks

  function FileBlocks(files: seq<File>): seq<seq<Entry>> {
    seq(|files|, i requires 0 <= i < |files| => files[i].entries)
  }

  ghost function FileKeys(files: seq<File>): seq<InternalKey> {
    seq(|files|, i requires 0 <= i < |files| => files[i].largest)
  }

  lemma {:induction false} FlatFilesElements(files: seq<File>, n: nat)
    requires n <= |files|
    ensures forall e :: e in Flat(FileBlocks(files), n) <==> exists i :: 0 <= i < n && e in files[i].entries
  {
    if n > 0 {
      FlatFilesElements(files, n - 1);
      assert FileBlocks(files)[n - 1] == files[n - 1].entries;
    }
  }

  lemma {:induction false} FlatFilesOrdered(files: seq<File>, n: nat)
    requires FilesOk(files) && SortedDisjoint(files) && n <= |files|
    ensures Ordered(Flat(FileBlocks(files), n))
  {
    if n > 0 {
      FlatFilesOrdered(files, n - 1);
      FlatFilesElements(files, n - 1);
      var front, last := Flat(FileBlocks(files), n - 1), files[n - 1];
      assert FileOk(last);
      forall i, j | 0 <= i < |front| && 0 <= j < |last.entries| ensures Before(front[i].key, last.entries[j].key) {
        assert front[i] in front;
        var k :| 0 <= k < n - 1 && front[i] in files[k].entries;
        assert FileOk(files[k]) && last.entries[j] in last.entries;
        FileBounds(files[k], front[i]);
        FileBounds(last, last.entries[j]);
      }
    }
  }

  /** A level above 0, indexed by its files' largest keys, is what the concatenating iterator needs and runs over. */
  lemma LevelAsBlocks(files: seq<File>)
    requires FilesOk(files) && SortedDisjoint(files)
    ensures Separated(FileKeys(files), FileBlocks(files)) && Ordered(All(FileBlocks(files)))
    ensures Elements(All(FileBlocks(files))) == Contents(files)
  {
    FlatFilesOrdered(files, |files|);
    FlatFilesElements(files, |files|);
    forall n, i | 0 <= n < |files| && 0 <= i < |files[n].entries|
      ensures !Less(files[n].largest, files[n].entries[i].key)
    {
      assert FileOk(files[n]) && files[n].entries[i] in files[n].entries;
      FileBounds(files[n], files[n].entries[i]);
    }
    forall n, m, i | 0 <= n < m < |files| && 0 <= i < |files[m].entries|
      ensures Less(files[n].largest, files[m].entries[i].key)
    {
      assert FileOk(files[m]) && files[m].entries[i] in files[m].entries;
      FileBounds(files[m], files[m].entries[i]);
    }
    forall e ensures e in Elements(All(FileBlocks(files))) <==> e in Contents(files) {
      if e in Contents(files) {
        var f :| f in files && e in f.entries;
        var i :| 0 <= i < |files| && files[i] == f;
      }
    }
  }

  /** What follows block n in the whole is after its index key. */
  lemma {:induction false} FlatAfter(keys: seq<InternalKey>, blocks: seq<seq<Entry>>, n: nat, m: nat,
                                     target: InternalKey)
    requires Separated(keys, blocks) && n < m <= |blocks| && !Less(keys[n], target)
    ensures forall i | |Flat(blocks, n + 1)| <= i < |Flat(blocks, m)| :: !Less(Flat(blocks, m)[i].key, target)
  {
    if n + 1 < m {
      FlatAfter(keys, blocks, n, m - 1, target);
      var last := blocks[m - 1];
      assert forall i | 0 <= i < |last| :: Less(keys[n], last[i].key);
    }
  }

  class TwoLevelIterator {
    const index: ListIterator
    const blockOf: Value -> seq<Entry>
    var data: ListIterator?
    var dataHandle: Value

    constructor (index: ListIterator, blockOf: Value -> seq<Entry>)
      ensures this.index == index && this.blockOf == blockOf && data == null
    {
      this.index, this.blockOf := index, blockOf;
      data, dataHandle := null, [];
    }

    ghost function Blocks(): seq<seq<Entry>> {
      seq(|index.entries|, i requires 0 <= i < |index.entries| => blockOf(index.entries[i].value))
    }

    ghost function IndexKeys(): seq<InternalKey> {
      seq(|index.entries|, i requires 0 <= i < |index.entries| => index.entries[i].key)
    }

    /** The list the iterator runs over. */
    ghost function Contents(): seq<Entry> {
      All(Blocks())
    }

    /** The open block, if any, is the one its handle names. */
    ghost predicate Coherent()
      reads this, index, data
    {
      data != null ==> data != index && data.entries == blockOf(dataHandle) && data.index <= |data.entries|
    }

    ghost predicate OnBlock()
      reads this, index, data
    {
      Coherent() && index.Valid() && data != null && dataHandle == index.Value()
    }

    ghost predicate Inv()
      reads this, index, data
    {
      Coherent() && (data != null ==> OnBlock() && data.Valid())
    }

    predicate Valid()
      reads this, data
    {
      data != null && data.Valid()
    }

    ghost function At(): Position
      requires Inv()
      reads this, index, data
    {
      if data == null then None else Some(|Flat(Blocks(), index.index)| + data.index)
    }

    function Key(): InternalKey
      requires Inv() && Valid()
      reads this, index, data
    {
      data.Key()
    }

    /** Key and value are those of the list at the iterator's position. */
    lemma CurrentEntry()
      requires Inv() && Valid()
      ensures At().Some? && At().value < |Contents()|
      ensures Contents()[At().value].key == Key() && Contents()[At().value].value == data.Value()
    {
      assert Blocks()[index.index] == data.entries;
      EntryInFlat(Blocks(), index.index, data.index);
    }

    /** Opens the block the index is on, unless it is open already; drops the block if the index is off its list. */
    method InitDataBlock()
      requires Coherent()
      modifies this
      ensures Coherent() && (data == null || data == old(data) || fresh(data))
      ensures if index.Valid() then OnBlock() else data == null
      ensures index.Valid() ==> data.entries == Blocks()[index.index]
    {
      if !index.Valid() {
        data := null;
      } else {
        var handle := index.Value();
        if data != null && handle == dataHandle {
        } else {
          data := new ListIterator(blockOf(handle));
          dataHandle := handle;
        }
      }
    }

    /** g is the place in the whole that the scan has come to; the block in hand is exhausted if it is not valid. */
    ghost predicate ScanningForward(g: nat)
      reads this, index, data
    {
      && Coherent()
      && if index.Valid() then OnBlock() && g == |Flat(Blocks(), index.index)| + data.index
         else data == null && g == |Contents()|
    }

    method SkipEmptyDataBlocksForward(ghost g: nat)
      requires ScanningForward(g)
      modifies this, index, data
      ensures Inv() && At() == AtIndex(|Contents()|, g) && (data == null || data == old(data) || fresh(data))
    {
      while data == null || !data.Valid()
        invariant ScanningForward(g) && (data == null || data == old(data) || fresh(data))
        decreases |index.entries| - index.index, index.Valid()
      {
        if !index.Valid() {
          data := null;
          return;
        }
        NextDataBlock(g);
      }
      assert Blocks()[index.index] == data.entries;
      EntryInFlat(Blocks(), index.index, data.index);
    }

    /** From the end of one block to the beginning of the next. */
    method NextDataBlock(ghost g: nat)
      requires ScanningForward(g) && index.Valid() && (data == null || !data.Valid())
      modifies this, index, data
      ensures ScanningForward(g) && (data == null || data == old(data) || fresh(data))
      ensures old(index.index) < index.index <= |index.entries|
    {
      ghost var n := index.index;
      assert Flat(Blocks(), n + 1) == Flat(Blocks(), n) + Blocks()[n];
      index.Next();
      InitDataBlock();
      if data != null {
        data.SeekToFirst();
      }
    }

    /** g is one past the last place still to be looked at. */
    ghost predicate ScanningBackward(g: nat)
      reads this, index, data
    {
      && Coherent()
      && if index.Valid() then OnBlock() && g == |Flat(Blocks(), index.index)| + data.Looked()
         else data == null && g == 0
    }

    method SkipEmptyDataBlocksBackward(ghost g: nat)
      requires ScanningBackward(g)
      modifies this, index, data
      ensures Inv() && At() == Last(g) && (data == null || data == old(data) || fresh(data))
    {
      while data == null || !data.Valid()
        invariant ScanningBackward(g) && (data == null || data == old(data) || fresh(data))
        decreases index.Looked()
      {
        if !index.Valid() {
          data := null;
          return;
        }
        ghost var n := index.index;
        assert n > 0 ==> Flat(Blocks(), n) == Flat(Blocks(), n - 1) + Blocks()[n - 1];
        index.Prev();
        InitDataBlock();
        if data != null {
          data.SeekToLast();
        }
      }
    }

    // -------------------------------------------------------------- the five movements

    method Seek(target: InternalKey)
      requires Coherent() && Ordered(Contents()) && Separated(IndexKeys(), Blocks())
      modifies this, index, data
      ensures Inv() && At() == AtIndex(|Contents()|, SeekIndex(Contents(), target))
      ensures data == null || data == old(data) || fresh(data)
    {
      index.Seek(target);
      InitDataBlock();
      ghost var n := SeekIndex(index.entries, target);
      assert forall k | 0 <= k < |index.entries| :: IndexKeys()[k] == index.entries[k].key;
      ghost var i := SeekInBlock(target);
      SeekInFlat(IndexKeys(), Blocks(), n, i, target);
      ghost var g := SeekIndex(Contents(), target);
      assert g == |Flat(Blocks(), n)| + i;
      SkipEmptyDataBlocksForward(g);
    }

    /** The data iterator, if there is one, at its first entry at or after the target. */
    method SeekInBlock(target: InternalKey) returns (ghost i: nat)
      requires Coherent() && (data != null ==> OnBlock())
      modifies data
      ensures Coherent() && (data == null ==> i == 0)
      ensures data != null ==> OnBlock() && i == data.index == SeekIndex(Blocks()[index.index], target)
    {
      i := 0;
      if data != null {
        data.Seek(target);
        i := data.index;
        assert Blocks()[index.index] == data.entries;
      }
    }

    method SeekToFirst()
      requires Coherent()
      modifies this, index, data
      ensures Inv() && At() == First(|Contents()|)
      ensures data == null || data == old(data) || fresh(data)
    {
      index.SeekToFirst();
      InitDataBlock();
      if data != null {
        data.SeekToFirst();
      }
      SkipEmptyDataBlocksForward(0);
    }

    method SeekToLast()
      requires Coherent()
      modifies this, index, data
      ensures Inv() && At() == Last(|Contents()|)
      ensures data == null || data == old(data) || fresh(data)
    {
      index.SeekToLast();
      InitDataBlock();
      if data != null {
        data.SeekToLast();
      }
      SkipEmptyDataBlocksBackward(|Contents()|);
    }

    method Next()
      requires Inv() && Valid()
      modifies this, index, data
      ensures Inv() && At() == Following(|Contents()|, old(At()).value)
      ensures data == null || data == old(data) || fresh(data)
    {
      ghost var g := At().value;
      data.Next();
      SkipEmptyDataBlocksForward(g + 1);
    }

    method Prev()
      requires Inv() && Valid()
      modifies this, index, data
      ensures Inv() && At() == Preceding(old(At()).value)
      ensures data == null || data == old(data) || fresh(data)
    {
      ghost var g := At().value;
      data.Prev();
      SkipEmptyDataBlocksBackward(g);
    }
  }
}
