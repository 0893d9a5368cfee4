/**
 Table files, versions (seven levels of files) and point lookups: FindFile and Version::Get.
 */
module Versions {
  import opened Keys
  import opened Reads

  const NUM_LEVELS := 7

  /** A table file: what the version records about it, and the entries it holds. */
  datatype File = File(number: nat, size: nat, smallest: InternalKey, largest: InternalKey, entries: seq<Entry>)

  type Version = v: seq<seq<File>> | |v| == NUM_LEVELS witness seq(NUM_LEVELS, _ => [])

  ghost predicate FileOk(f: File) {
    && |f.entries| > 0
    && Ordered(f.entries)
    && f.smallest == f.entries[0].key
    && f.largest == f.entries[|f.entries| - 1].key
  }

  ghost predicate FilesOk(files: seq<File>) {
    forall f | f in files :: FileOk(f)
  }

  /** Levels above 0 are sorted and disjoint as ranges of internal keys; a user key may span neighbouring files. */
  ghost predicate SortedDisjoint(files: seq<File>) {
    forall i, j | 0 <= i < j < |files| :: Before(files[i].largest, files[j].smallest)
  }

  ghost predicate NewestFirstByNumber(files: seq<File>) {
    forall f, g {:trigger NewerThan(Elements(f.entries), Elements(g.entries))}
      | f in files && g in files && f.number > g.number :: NewerThan(Elements(f.entries), Elements(g.entries))
  }

  ghost predicate DistinctNumbers(files: seq<File>) {
    forall i, j | 0 <= i < j < |files| :: files[i].number != files[j].number
  }

  ghost function Contents(files: seq<File>): iset<Entry> {
    iset e, f | f in files && e in f.entries :: e
  }

  /** The entries of level l and of every deeper level. */
  ghost function ContentsFrom(v: Version, l: nat): iset<Entry> {
    iset e, m | l <= m < NUM_LEVELS && e in Contents(v[m]) :: e
  }

  ghost predicate LevelOk(files: seq<File>, l: nat) {
    && FilesOk(files)
    && DistinctNumbers(files)
    && (if l == 0 then NewestFirstByNumber(files) else SortedDisjoint(files))
  }

  /** Per user key, a shallower level is newer than a deeper one. */
  ghost predicate LevelsNewer(v: Version) {
    forall l, m {:trigger NewerThan(Contents(v[l]), Contents(v[m]))} | 0 <= l < m < NUM_LEVELS
      :: NewerThan(Contents(v[l]), Contents(v[m]))
  }

  ghost predicate NoSharedNumber(files: seq<File>, others: seq<File>) {
    forall f, g | f in files && g in others :: f.number != g.number
  }

  ghost predicate LevelsDistinct(v: Version) {
    forall l, m {:trigger NoSharedNumber(v[l], v[m])} | 0 <= l < m < NUM_LEVELS :: NoSharedNumber(v[l], v[m])
  }

  ghost predicate LevelsOk(v: Version) {
    forall l {:trigger LevelOk(v[l], l)} | 0 <= l < NUM_LEVELS :: LevelOk(v[l], l)
  }

  /** The invariant of every installed version. */
  ghost predicate VersionOk(v: Version) {
    LevelsOk(v) && LevelsNewer(v) && LevelsDistinct(v)
  }

  // ---------------------------------------------------------------- files

  /** Every key of a file lies between its recorded bounds, first and last included. */
  lemma FileBounds(f: File, e: Entry)
    requires FileOk(f) && e in f.entries
    ensures f.smallest == e.key || Before(f.smallest, e.key)
    ensures f.largest == e.key || Before(e.key, f.largest)
  {
    var i :| 0 <= i < |f.entries| && f.entries[i] == e;
  }

  /** The first entry at or after k: what Table::InternalGet lands on (module Tables refines it). */
  function SeekIndex(es: seq<Entry>, k: InternalKey): (r: nat)
    ensures r <= |es|
    ensures forall i | 0 <= i < r :: Less(es[i].key, k)
    ensures r < |es| ==> !Less(es[r].key, k)
  {
    if es == [] || !Less(es[0].key, k) then 0 else 1 + SeekIndex(es[1..], k)
  }

  /**
   One seek in one sorted run: the entry landed on counts only if it is for u. This is MemTable::Get, and
   TableCache::Get with the SaveValue callback.
   */
  function Lookup(es: seq<Entry>, u: UserKey, s: SequenceNumber): (hit: Option<Entry>)
    requires Ordered(es)
    ensures hit.Some? ==> IsNewest(Elements(es), u, s, hit.value)
    ensures hit.None? ==> !HasEntry(Elements(es), u, s)
  {
    var i := SeekIndex(es, LookupKey(u, s));
    assert i < |es| ==> forall j | i < j < |es| :: Before(es[i].key, es[j].key);
    if i < |es| && es[i].key.user == u then Some(es[i]) else None
  }

  lemma LevelHasUniqueSeqs(files: seq<File>, l: nat)
    requires LevelOk(files, l)
    ensures UniqueSeqs(Contents(files))
  {
    forall a, b | a in Contents(files) && b in Contents(files)
      ensures a.key.user == b.key.user && a.key.sequence == b.key.sequence ==> a == b
    {
      var f :| f in files && a in f.entries;
      var g :| g in files && b in g.entries;
      var i :| 0 <= i < |files| && files[i] == f;
      var j :| 0 <= j < |files| && files[j] == g;
      FileBounds(f, a);
      FileBounds(g, b);
      assert a in Elements(f.entries) && b in Elements(g.entries);
      if i == j {
        OrderedHasUniqueSeqs(f.entries);
      } else if l == 0 {
        assert f.number > g.number ==> NewerThan(Elements(f.entries), Elements(g.entries));
        assert g.number > f.number ==> NewerThan(Elements(g.entries), Elements(f.entries));
        assert f.number != g.number;
      } else {
        assert i < j ==> Before(f.largest, g.smallest);
        assert j < i ==> Before(g.largest, f.smallest);
      }
    }
  }

  lemma VersionHasUniqueSeqs(v: Version, l: nat)
    requires LevelsOk(v) && LevelsNewer(v)
    ensures UniqueSeqs(ContentsFrom(v, l))
  {
    forall a, b | a in ContentsFrom(v, l) && b in ContentsFrom(v, l)
      ensures a.key.user == b.key.user && a.key.sequence == b.key.sequence ==> a == b
    {
      var m :| l <= m < NUM_LEVELS && a in Contents(v[m]);
      var n :| l <= n < NUM_LEVELS && b in Contents(v[n]);
      assert m < n ==> NewerThan(Contents(v[m]), Contents(v[n]));
      assert n < m ==> NewerThan(Contents(v[n]), Contents(v[m]));
      LevelHasUniqueSeqs(v[m], m);
    }
  }

  // ---------------------------------------------------------------- FindFile

  /** Binary search for the first file whose largest key is >= key. */
  method FindFile(files: seq<File>, key: InternalKey) returns (r: nat)
    requires FilesOk(files) && SortedDisjoint(files)
    ensures r <= |files|
    ensures forall i | 0 <= i < r :: Less(files[i].largest, key)
    ensures forall i | r <= i < |files| :: !Less(files[i].largest, key)
  {
    var left, right := 0, |files|;
    while left < right
      invariant 0 <= left <= right <= |files|
      invariant forall i | 0 <= i < left :: Less(files[i].largest, key)
      invariant forall i | right <= i < |files| :: !Less(files[i].largest, key)
    {
      var mid := (left + right) / 2;
      LargestKeysAscend(files);
      if Compare(files[mid].largest, key) < 0 {
        left := mid + 1;
      } else {
        right := mid;
      }
    }
    r := right;
  }

  lemma LargestKeysAscend(files: seq<File>)
    requires FilesOk(files) && SortedDisjoint(files)
    ensures forall i, j | 0 <= i < j < |files| :: Before(files[i].largest, files[j].largest)
    ensures forall i, j | 0 <= i < j < |files| :: Before(files[i].smallest, files[j].smallest)
  {
    forall i, j | 0 <= i < j < |files|
      ensures Before(files[i].largest, files[j].largest) && Before(files[i].smallest, files[j].smallest)
    {
      assert FileOk(files[i]) && FileOk(files[j]);
      FileBounds(files[i], files[i].entries[0]);
      FileBounds(files[j], files[j].entries[0]);
    }
  }

  // ---------------------------------------------------------------- Version::Get

  ghost predicate NumberDescending(files: seq<File>) {
    forall i, j | 0 <= i < j < |files| :: files[i].number >= files[j].number
  }

  function InsertNewestFirst(f: File, files: seq<File>): (r: seq<File>)
    requires NumberDescending(files)
    ensures NumberDescending(r)
    ensures |r| == |files| + 1
    ensures forall g :: g in r <==> g == f || g in files
  {
    if files == [] || f.number > files[0].number then
      [f] + files
    else
      var rest := InsertNewestFirst(f, files[1..]);
      assert forall k | 1 <= k < |files| :: files[k].number <= files[0].number;
      assert forall g | g in rest :: g.number <= files[0].number;
      [files[0]] + rest
  }

  /** std::sort with the NewestFirst comparison. */
  function SortNewestFirst(files: seq<File>): (r: seq<File>)
    ensures NumberDescending(r)
    ensures |r| == |files|
    ensures forall g :: g in r <==> g in files
  {
    if files == [] then [] else InsertNewestFirst(files[0], SortNewestFirst(files[1..]))
  }

  /** The files whose user-key range covers u, newest file first. */
  method CoveringNewestFirst(files: seq<File>, u: UserKey) returns (sorted: seq<File>)
    ensures NumberDescending(sorted)
    ensures forall f :: f in sorted <==> f in files && f.smallest.user <= u <= f.largest.user
  {
    var tmp: seq<File> := [];
    for i := 0 to |files|
      invariant forall f :: f in tmp <==> f in files[..i] && f.smallest.user <= u <= f.largest.user
    {
      if u >= files[i].smallest.user && u <= files[i].largest.user {
        tmp := tmp + [files[i]];
      }
    }
    sorted := SortNewestFirst(tmp);
    assert files[..|files|] == files;
  }

  /** The level-0 half of the lookup: every file that covers u, until one of them has an entry. */
  method SearchLevelZero(files: seq<File>, u: UserKey, s: SequenceNumber) returns (hit: Option<Entry>)
    requires LevelOk(files, 0)
    ensures hit.Some? ==> IsNewest(Contents(files), u, s, hit.value)
    ensures hit.None? ==> !HasEntry(Contents(files), u, s)
  {
    var sorted := CoveringNewestFirst(files, u);
    var i := 0;
    while i < |sorted|
      invariant 0 <= i <= |sorted|
      invariant forall j | 0 <= j < i :: !HasEntry(Elements(sorted[j].entries), u, s)
    {
      assert sorted[i] in files;
      hit := Lookup(sorted[i].entries, u, s);
      if hit.Some? {
        NewestInLevelZero(files, sorted, i, u, s, hit.value);
        return;
      }
      i := i + 1;
    }
    hit := None;
    NothingInLevelZero(files, sorted, u, s);
  }

  lemma NothingInLevelZero(files: seq<File>, sorted: seq<File>, u: UserKey, s: SequenceNumber)
    requires LevelOk(files, 0)
    requires forall f :: f in sorted <==> f in files && f.smallest.user <= u <= f.largest.user
    requires forall j | 0 <= j < |sorted| :: !HasEntry(Elements(sorted[j].entries), u, s)
    ensures !HasEntry(Contents(files), u, s)
  {
    forall f, e | f in files && e in f.entries ensures !Qualifies(e, u, s) {
      FileBounds(f, e);
      assert e in Elements(f.entries);
      if f in sorted {
        var j :| 0 <= j < |sorted| && sorted[j] == f;
        assert !HasEntry(Elements(sorted[j].entries), u, s);
      }
    }
  }

  lemma NewestInLevelZero(files: seq<File>, sorted: seq<File>, i: nat, u: UserKey, s: SequenceNumber, n: Entry)
    requires LevelOk(files, 0) && NumberDescending(sorted) && i < |sorted|
    requires forall f :: f in sorted <==> f in files && f.smallest.user <= u <= f.largest.user
    requires forall j | 0 <= j < i :: !HasEntry(Elements(sorted[j].entries), u, s)
    requires IsNewest(Elements(sorted[i].entries), u, s, n)
    ensures IsNewest(Contents(files), u, s, n)
  {
    assert sorted[i] in files;
    forall f, x | f in files && x in f.entries ensures Qualifies(x, u, s) ==> x.key.sequence <= n.key.sequence {
      FileBounds(f, x);
      assert x in Elements(f.entries);
      if f in sorted {
        var j :| 0 <= j < |sorted| && sorted[j] == f;
        assert j < i ==> !HasEntry(Elements(sorted[j].entries), u, s);
        assert f.number == sorted[i].number ==> f == sorted[i];
        assert sorted[i].number > f.number ==> NewerThan(Elements(sorted[i].entries), Elements(f.entries));
      }
    }
  }

  /** A deeper level: one binary-searched file. */
  method SearchSortedLevel(files: seq<File>, u: UserKey, s: SequenceNumber) returns (hit: Option<Entry>)
    requires FilesOk(files) && SortedDisjoint(files)
    ensures hit.Some? ==> IsNewest(Contents(files), u, s, hit.value)
    ensures hit.None? ==> !HasEntry(Contents(files), u, s)
  {
    var index := FindFile(files, LookupKey(u, s));
    if index < |files| && u >= files[index].smallest.user {
      assert FileOk(files[index]);
      hit := Lookup(files[index].entries, u, s);
    } else {
      hit := None;
    }
    forall x, f | f in files && x in f.entries && Qualifies(x, u, s)
      ensures hit.Some? && x.key.sequence <= hit.value.key.sequence
    {
      var j :| 0 <= j < |files| && files[j] == f;
      FileBounds(f, x);
      LookupSplits(u, s, x.key);
      assert index <= j;
      assert index < j ==> Before(files[index].largest, f.smallest);
      if index < j {
        // The file landed on ends at or after the lookup key and before x, so it ends on an entry for u.
        assert FileOk(files[index]);
        var last := files[index].entries[|files[index].entries| - 1];
        FileBounds(files[index], last);
        FileBounds(files[index], files[index].entries[0]);
        LookupSplits(u, s, last.key);
        assert last in Elements(files[index].entries) && Qualifies(last, u, s);
      } else {
        assert x in Elements(f.entries);
      }
    }
    assert hit.Some? ==> files[index] in files && hit.value in files[index].entries;
  }

  /** A level and everything below it form two layers, the upper one newer. */
  lemma LevelLayers(v: Version, l: nat)
    requires VersionOk(v) && l < NUM_LEVELS
    ensures ContentsFrom(v, l) == Contents(v[l]) + ContentsFrom(v, l + 1)
    ensures UniqueSeqs(Contents(v[l])) && UniqueSeqs(ContentsFrom(v, l + 1))
    ensures NewerThan(Contents(v[l]), ContentsFrom(v, l + 1))
  {
    assert LevelOk(v[l], l);
    VersionHasUniqueSeqs(v, l + 1);
    LevelHasUniqueSeqs(v[l], l);
    forall a, b | a in Contents(v[l]) && b in ContentsFrom(v, l + 1)
      ensures a.key.user == b.key.user ==> a.key.sequence > b.key.sequence
    {
      var m :| l + 1 <= m < NUM_LEVELS && b in Contents(v[m]);
      assert NewerThan(Contents(v[l]), Contents(v[m]));
    }
  }

  /** The files of one level that may hold u, searched in the order the engine searches them. */
  method SearchLevel(v: Version, level: nat, u: UserKey, s: SequenceNumber) returns (hit: Option<Entry>)
    requires VersionOk(v) && level < NUM_LEVELS
    ensures Read(ContentsFrom(v, level), u, s) ==
            if hit.Some? then AnswerOf(hit.value) else Read(ContentsFrom(v, level + 1), u, s)
  {
    assert LevelOk(v[level], level);
    if level == 0 {
      hit := SearchLevelZero(v[level], u, s);
    } else {
      hit := SearchSortedLevel(v[level], u, s);
    }
    LevelLayers(v, level);
    LayerDecides(Contents(v[level]), ContentsFrom(v, level + 1), u, s, hit);
  }

  /** Version::Get: level by level, stopping at the first hit; it reads exactly what the whole version means. */
  method Get(v: Version, u: UserKey, s: SequenceNumber) returns (r: Answer)
    requires VersionOk(v)
    ensures r == Read(ContentsFrom(v, 0), u, s)
  {
    var level := 0;
    while level < NUM_LEVELS
      invariant 0 <= level <= NUM_LEVELS
      invariant Read(ContentsFrom(v, 0), u, s) == Read(ContentsFrom(v, level), u, s)
    {
      var hit := SearchLevel(v, level, u, s);
      if hit.Some? {
        return AnswerOf(hit.value);
      }
      level := level + 1;
    }
    r := NotFound;
    ReadNothing(ContentsFrom(v, NUM_LEVELS), u, s);
  }
}
