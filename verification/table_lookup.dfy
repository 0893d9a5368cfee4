/**
 A table read through its bytes gives what Versions.Lookup gives on its entries: TableCache::Get with the SaveValue
 callback (table.cc, version_set.cc).
 */
module TableLookup {
  import opened Blocks
  import opened Coding
  import opened Keys
  import opened Reads
  import opened Tables
  import BlockBuilding
  import Bloom
  import Comparator
  import FilterBlocks
  import InternalKeys
  import TableBuilding
  import Versions

  /** An entry with its user key as the bytes it is. */
  datatype Row = Row(user: Key, sequence: SequenceNumber, kind: ValueType, value: Value)

  function PairOf(row: Row): Pair {
    Pair(InternalKeys.Encode(row.user, row.sequence, row.kind), row.value)
  }

  function EntryOf(row: Row): Entry {
    Entry(InternalKeys.Meaning(row.user, row.sequence, row.kind), row.value)
  }

  function PairsOf(rows: seq<Row>): seq<Pair> {
    seq(|rows|, i requires 0 <= i < |rows| => PairOf(rows[i]))
  }

  function EntriesOf(rows: seq<Row>): seq<Entry> {
    seq(|rows|, i requires 0 <= i < |rows| => EntryOf(rows[i]))
  }

  lemma {:induction false} InFlat(blocks: seq<seq<Pair>>, p: Pair)
    ensures p in TableBuilding.FlatBlocks(blocks) <==>
              exists b: nat, i: nat :: b < |blocks| && i < |blocks[b]| && blocks[b][i] == p
  {
    if blocks != [] {
      var init := blocks[..|blocks| - 1];
      InFlat(init, p);
      if p in TableBuilding.FlatBlocks(init) {
        var b: nat, i: nat :| b < |init| && i < |init[b]| && init[b][i] == p;
        assert blocks[b][i] == p;
      }
      if b: nat, i: nat :| b < |blocks| && i < |blocks[b]| && blocks[b][i] == p {
        if b < |init| {
          assert init[b][i] == p;
        }
      }
    }
  }

  function LookupBytes(user: Key, s: SequenceNumber): Key {
    InternalKeys.Encode(user, s, TYPE_FOR_SEEK)
  }

  /** A row is not before the lookup key, and of its user key, exactly when it may answer the lookup. */
  lemma RowQualifies(row: Row, user: Key, s: SequenceNumber)
    ensures InternalKeys.UserKeyOf(PairOf(row).key) == row.user
    ensures InternalKeys.UserKeyOf(LookupBytes(user, s)) == user
    ensures row.user == user ==>
              (InternalKeys.Compare(PairOf(row).key, LookupBytes(user, s)) >= 0
               <==> Qualifies(EntryOf(row), Comparator.Rank(user), s))
    ensures EntryOf(row).key.user == Comparator.Rank(user) <==> row.user == user
  {
    InternalKeys.EncodedParts(row.user, row.sequence, row.kind);
    InternalKeys.EncodedParts(user, s, TYPE_FOR_SEEK);
    InternalKeys.EncodingsCompare(row.user, row.sequence, row.kind, user, s, TYPE_FOR_SEEK);
    LookupSplits(Comparator.Rank(user), s, EntryOf(row).key);
    Comparator.RankKeepsOrder(row.user, user);
    Comparator.CompareIsOrder(row.user, user, user);
  }

  /** SaveValue: the pair counts only if it is of the user key looked for. */
  function SaveValue(r: Option<Pair>, user: Key): Option<Pair> {
    if r.Some? && InternalKeys.IsEncoded(r.value.key) && InternalKeys.UserKeyOf(r.value.key) == user then r else None
  }

  lemma CandidateRow(blocks: seq<seq<Pair>>, rows: seq<Row>, p: Pair, m: nat)
    requires TableBuilding.FlatBlocks(blocks) == PairsOf(rows) && m < |rows| && p == PairOf(rows[m])
    ensures exists b: nat, i: nat :: b < |blocks| && i < |blocks[b]| && blocks[b][i] == p
  {
    assert PairsOf(rows)[m] == p;
    InFlat(blocks, p);
  }

  lemma RowOfCandidate(blocks: seq<seq<Pair>>, rows: seq<Row>, b: nat, i: nat) returns (m: nat)
    requires TableBuilding.FlatBlocks(blocks) == PairsOf(rows) && b < |blocks| && i < |blocks[b]|
    ensures m < |rows| && PairOf(rows[m]) == blocks[b][i]
  {
    InFlat(blocks, blocks[b][i]);
    m :| 0 <= m < |rows| && PairsOf(rows)[m] == blocks[b][i];
  }

  /** What SaveValue keeps is a row that may answer the lookup. */
  lemma SavedRow(blocks: seq<seq<Pair>>, rows: seq<Row>, user: Key, s: SequenceNumber, p: Pair) returns (n: nat)
    requires TableBuilding.FlatBlocks(blocks) == PairsOf(rows)
    requires exists b: nat, i: nat :: Candidate(blocks, LookupBytes(user, s), b, i) && blocks[b][i] == p
    requires InternalKeys.IsEncoded(p.key) && InternalKeys.UserKeyOf(p.key) == user
    ensures n < |rows| && PairOf(rows[n]) == p && rows[n].user == user
    ensures Qualifies(EntryOf(rows[n]), Comparator.Rank(user), s)
  {
    var b: nat, i: nat :| Candidate(blocks, LookupBytes(user, s), b, i) && blocks[b][i] == p;
    n := RowOfCandidate(blocks, rows, b, i);
    RowQualifies(rows[n], user, s);
  }

  /** A row that may answer the lookup makes the search find a row of the user key, and no later one. */
  lemma RowIsFound(blocks: seq<seq<Pair>>, rows: seq<Row>, user: Key, s: SequenceNumber, r: Option<Pair>, m: nat)
    requires TableBuilding.FlatBlocks(blocks) == PairsOf(rows) && m < |rows|
    requires FoundFirst(blocks, LookupBytes(user, s), r)
    requires rows[m].user == user && Qualifies(EntryOf(rows[m]), Comparator.Rank(user), s)
    ensures SaveValue(r, user) == r && r.Some?
    ensures InternalKeys.Compare(r.value.key, PairOf(rows[m]).key) <= 0
  {
    var k := LookupBytes(user, s);
    RowQualifies(rows[m], user, s);
    CandidateRow(blocks, rows, PairOf(rows[m]), m);
    var b: nat, i: nat :| b < |blocks| && i < |blocks[b]| && blocks[b][i] == PairOf(rows[m]);
    assert Candidate(blocks, k, b, i) && SameUser(blocks, k, b, i);
  }

  lemma EntryIn(rows: seq<Row>, n: nat)
    requires n < |rows|
    ensures EntryOf(rows[n]) in Elements(EntriesOf(rows))
  {
    assert EntriesOf(rows)[n] == EntryOf(rows[n]);
  }

  /** The lookup among the rows and the search in the table give the same row, or nothing. */
  ghost predicate SameRowFound(rows: seq<Row>, hit: Option<Entry>, saved: Option<Pair>) {
    match hit
    case None => saved == None
    case Some(e) => exists m :: 0 <= m < |rows| && e == EntryOf(rows[m]) && saved == Some(PairOf(rows[m]))
  }

  /** The first pair of the user key at or after the lookup key is the newest entry at or below the snapshot. */
  lemma FirstIsNewest(blocks: seq<seq<Pair>>, rows: seq<Row>, user: Key, s: SequenceNumber, r: Option<Pair>)
    requires TableBuilding.FlatBlocks(blocks) == PairsOf(rows)
    requires Ordered(EntriesOf(rows))
    requires FoundFirst(blocks, LookupBytes(user, s), r)
    ensures SameRowFound(rows, Versions.Lookup(EntriesOf(rows), Comparator.Rank(user), s), SaveValue(r, user))
  {
    var hit := Versions.Lookup(EntriesOf(rows), Comparator.Rank(user), s);
    if SaveValue(r, user).Some? {
      var n := SavedRow(blocks, rows, user, s, r.value);
      SavedIsNewest(blocks, rows, user, s, r, n);
      RowFound(rows, n, hit, SaveValue(r, user));
    } else if hit.Some? {
      NewestIsSaved(blocks, rows, user, s, r);
    }
  }

  lemma RowFound(rows: seq<Row>, n: nat, hit: Option<Entry>, saved: Option<Pair>)
    requires n < |rows| && hit == Some(EntryOf(rows[n])) && saved == Some(PairOf(rows[n]))
    ensures SameRowFound(rows, hit, saved)
  {
  }

  /** What the search saves is what the lookup gives. */
  lemma SavedIsNewest(blocks: seq<seq<Pair>>, rows: seq<Row>, user: Key, s: SequenceNumber, r: Option<Pair>, n: nat)
    requires TableBuilding.FlatBlocks(blocks) == PairsOf(rows) && Ordered(EntriesOf(rows))
    requires FoundFirst(blocks, LookupBytes(user, s), r) && r.Some?
    requires n < |rows| && PairOf(rows[n]) == r.value && rows[n].user == user
    requires Qualifies(EntryOf(rows[n]), Comparator.Rank(user), s)
    ensures Versions.Lookup(EntriesOf(rows), Comparator.Rank(user), s) == Some(EntryOf(rows[n]))
  {
    var entries, u := EntriesOf(rows), Comparator.Rank(user);
    EntryIn(rows, n);
    assert HasEntry(Elements(entries), u, s);
    var hit := Versions.Lookup(entries, u, s);
    var m :| 0 <= m < |rows| && entries[m] == hit.value;
    RowQualifies(rows[m], user, s);
    RowIsFound(blocks, rows, user, s, r, m);
    SameRow(rows, n, m, user);
  }

  /** What the lookup gives, the search saves. */
  lemma NewestIsSaved(blocks: seq<seq<Pair>>, rows: seq<Row>, user: Key, s: SequenceNumber, r: Option<Pair>)
    requires TableBuilding.FlatBlocks(blocks) == PairsOf(rows) && Ordered(EntriesOf(rows))
    requires FoundFirst(blocks, LookupBytes(user, s), r)
    requires Versions.Lookup(EntriesOf(rows), Comparator.Rank(user), s).Some?
    ensures SaveValue(r, user).Some?
  {
    var entries := EntriesOf(rows);
    var hit := Versions.Lookup(entries, Comparator.Rank(user), s);
    var m :| 0 <= m < |rows| && entries[m] == hit.value;
    RowQualifies(rows[m], user, s);
    RowIsFound(blocks, rows, user, s, r, m);
  }

  lemma SameRow(rows: seq<Row>, n: nat, m: nat, user: Key)
    requires Ordered(EntriesOf(rows)) && n < |rows| && m < |rows| && rows[n].user == rows[m].user
    requires rows[n].sequence <= rows[m].sequence
    requires InternalKeys.Compare(PairOf(rows[n]).key, PairOf(rows[m]).key) <= 0
    ensures n == m
  {
    var entries := EntriesOf(rows);
    InternalKeys.EncodingsCompare(rows[n].user, rows[n].sequence, rows[n].kind, rows[m].user, rows[m].sequence,
                                  rows[m].kind);
    assert n < m ==> Before(entries[n].key, entries[m].key);
    assert m < n ==> Before(entries[m].key, entries[n].key);
  }

  /** A lookup in the table's bytes. */
  method Get(ghost sum: Sum, hash: Bloom.Hash, t: Table, user: Key, s: SequenceNumber, ghost blocks: seq<seq<Pair>>,
             ghost handles: seq<Handle>, ghost separators: seq<Key>, ghost rows: seq<Row>)
    returns (r: Option<Pair>)
    requires IsTable(sum, hash, t, blocks, handles, separators)
    requires TableBuilding.FlatBlocks(blocks) == PairsOf(rows) && Ordered(EntriesOf(rows))
    ensures SameRowFound(rows, Versions.Lookup(EntriesOf(rows), Comparator.Rank(user), s), r)
  {
    var found := InternalGet(sum, hash, t, LookupBytes(user, s), blocks, handles, separators);
    r := SaveValue(found, user);
    FirstIsNewest(blocks, rows, user, s, found);
  }

  // ---------------------------------------------------------------- from the builder to the lookup

  /** More bytes than the rows can take up in the file and in the index block. */
  function Room(rows: seq<Row>): nat {
    if rows == [] then 48 else Room(rows[..|rows| - 1]) + RowRoom(rows[|rows| - 1])
  }

  function RowRoom(row: Row): nat {
    |PairOf(row).key| + |row.value| + 39
  }

  lemma {:induction false} RoomGrows(rows: seq<Row>, i: nat)
    requires i < |rows|
    ensures Room(rows[..i + 1]) == Room(rows[..i]) + RowRoom(rows[i]) <= Room(rows)
    ensures PairsOf(rows[..i + 1]) == PairsOf(rows[..i]) + [PairOf(rows[i])]
  {
    assert rows[..i + 1][..i] == rows[..i];
    if i + 1 == |rows| {
      assert rows[..i + 1] == rows;
    } else {
      var init := rows[..|rows| - 1];
      assert init[..i + 1] == rows[..i + 1] && init[..i] == rows[..i] && init[i] == rows[i];
      RoomGrows(init, i);
    }
  }

  lemma RowsAscend(rows: seq<Row>, i: nat)
    requires Ordered(EntriesOf(rows)) && 0 < i < |rows|
    ensures InternalKeys.Compare(PairOf(rows[i - 1]).key, PairOf(rows[i]).key) < 0
  {
    var a, b := rows[i - 1], rows[i];
    var entries := EntriesOf(rows);
    InternalKeys.EncodingsCompare(a.user, a.sequence, a.kind, b.user, b.sequence, b.kind);
    assert Before(entries[i - 1].key, entries[i].key);
  }

  /** What a builder holds that was given the first i rows: those, and not too many bytes. */
  ghost predicate HasRows(builder: TableBuilding.TableBuilder, rows: seq<Row>, i: nat)
    requires i <= |rows|
    reads builder, builder.filterBlock
  {
    && builder.Valid() && TableBuilding.Flat(builder.w) == PairsOf(rows[..i])
    && (if i == 0 then builder.w.blocks == [] && builder.w.filling == []
      else builder.lastKey == PairOf(rows[i - 1]).key)
    && |builder.file| + BlockBuilding.SizeBound(builder.dataBlock) + 40 <= Room(rows[..i])
    && BlockBuilding.SizeBound(builder.indexBlock) + |builder.lastKey| + 40 <= Room(rows[..i])
  }

  method AddRow(builder: TableBuilding.TableBuilder, rows: seq<Row>, i: nat, cut: bool)
    requires i < |rows| && HasRows(builder, rows, i) && Ordered(EntriesOf(rows)) && Room(rows) < TWO_32
    modifies builder, builder.filterBlock
    ensures HasRows(builder, rows, i + 1)
  {
    var pair := PairOf(rows[i]);
    RoomGrows(rows, i);
    if i > 0 {
      RowsAscend(rows, i);
    }
    TableBuilding.OneMorePair(builder.dataBlock, pair);
    builder.Add(pair.key, pair.value, cut);
  }

  /** A table file from rows in key order, its data blocks cut anywhere, with a filter of any parameters or without. */
  method BuildTable(sum: Sum, interval: nat, hash: Bloom.Hash, filterBlock: FilterBlocks.FilterBlockBuilder?,
                    rows: seq<Row>, cut: nat -> bool)
    returns (t: Table, ghost blocks: seq<seq<Pair>>, ghost handles: seq<Handle>, ghost separators: seq<Key>)
    requires interval >= 1 && Ordered(EntriesOf(rows)) && Room(rows) < TWO_32
    requires filterBlock != null ==>
               filterBlock.Valid() && filterBlock.added == {} && filterBlock.current == 0 && filterBlock.hash == hash
    modifies filterBlock
    ensures TableBuilding.FlatBlocks(blocks) == PairsOf(rows)
    ensures t.filter.Some? <==> filterBlock != null
    ensures FilterFits(t) ==> IsTable(sum, hash, t, blocks, handles, separators)
  {
    var builder := new TableBuilding.TableBuilder(sum, interval, filterBlock);
    for i := 0 to |rows|
      invariant fresh(builder) && builder.filterBlock == filterBlock && builder.sum == sum && HasRows(builder, rows, i)
    {
      AddRow(builder, rows, i, cut(i));
    }
    assert rows[..|rows|] == rows;
    t, separators := builder.Finish();
    blocks, handles := builder.w.blocks, builder.w.handles;
  }

  /** The filter block's own offsets are 32-bit numbers. */
  predicate FilterFits(t: Table) {
    t.filter.Some? ==> |t.filter.value| < TWO_32
  }

  /**
   A table built from rows answers a lookup of any user key at any snapshot as the lookup among the rows does: blocks
   cut anywhere, shortened index keys, a filter or none.
   */
  method BuildAndGet(sum: Sum, interval: nat, hash: Bloom.Hash, policy: Option<(nat, nat)>, rows: seq<Row>,
                     cut: nat -> bool, user: Key, s: SequenceNumber)
    returns (t: Table, r: Option<Pair>)
    requires interval >= 1 && Ordered(EntriesOf(rows)) && Room(rows) < TWO_32
    requires policy.Some? ==> 1 <= policy.value.1 <= 30
    ensures t.filter.Some? <==> policy.Some?
    ensures FilterFits(t) ==> SameRowFound(rows, Versions.Lookup(EntriesOf(rows), Comparator.Rank(user), s), r)
  {
    var filterBlock: FilterBlocks.FilterBlockBuilder? := null;
    if policy.Some? {
      filterBlock := new FilterBlocks.FilterBlockBuilder(hash, policy.value.0, policy.value.1);
    }
    ghost var blocks, handles, separators;
    t, blocks, handles, separators := BuildTable(sum, interval, hash, filterBlock, rows, cut);
    r := None;
    if FilterFits(t) {
      r := Get(sum, hash, t, user, s, blocks, handles, separators, rows);
    }
  }
}
