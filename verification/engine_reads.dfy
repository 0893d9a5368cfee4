/**
 The read paths put together: what DBImpl::Get and an iterator over the whole database give in any state of a guarded
 run, in terms of what was written (Get and NewInternalIterator in db_impl.cc, AddIterators in version_set.cc).
 */
module EngineReads {
  import opened Cursors
  import opened Engine
  import opened EngineWrites
  import opened Keys
  import opened Reads
  import opened Versions
  import DBIterator
  import Merger
  import Slices
  import TwoLevel

  /** The memtables as sorted lists. */
  ghost predicate Holds(s: State, mem: seq<Entry>, imm: Option<seq<Entry>>) {
    && Ordered(mem) && Elements(mem) == s.mem
    && (imm.Some? <==> s.imm.Some?)
    && (imm.Some? ==> Ordered(imm.value) && Elements(imm.value) == s.imm.value)
  }

  // ---------------------------------------------------------------- point reads

  /** DBImpl::Get in any structurally sound state, whatever compactions dropped: it reads what the state stores. */
  method GetStored(ghost s: State, mem: seq<Entry>, imm: Option<seq<Entry>>, v: Version, u: UserKey, n: SequenceNumber)
    returns (r: Answer)
    requires Structural(s) && Holds(s, mem, imm) && v == s.version
    ensures r == Read(Stored(s), u, n)
  {
    ghost var second := Elements(if imm.Some? then imm.value else []);
    assert second == Immutable(s);
    r := Engine.Get(mem, imm, v, u, n, s.lastSequence);
  }

  /**
   DBImpl::Get in state j, at a snapshot taken by state i and not yet released: through both memtables, level 0 and
   every deeper level, the answer is what had been written by state i. The last operation on the user key among the
   first n of the run's writes decides.
   */
  method GetInRun(ghost states: seq<State>, ghost steps: seq<Step>, ghost i: nat, ghost j: nat,
                  mem: seq<Entry>, imm: Option<seq<Entry>>, v: Version, u: UserKey, n: SequenceNumber)
    returns (r: Answer)
    requires IsRun(states, steps) && i <= j < |states| && AllGuarded(states, steps, j)
    requires n <= states[i].lastSequence && OldestSnapshot(states[j]) <= n
    requires Holds(states[j], mem, imm) && v == states[j].version
    ensures r == Read(states[i].history, u, n) == LastOn(WrittenBy(steps, i, n), u)
  {
    HistoryReads(states, steps, i, u, n);
    RunKeepsStructure(states, steps, j);
    r := GetStored(states[j], mem, imm, v, u, n);
    SnapshotsNeverChange(states, steps, i, j, u, n);
  }

  // ---------------------------------------------------------------- the lists an iterator merges

  /** Lists in no danger of a tie, which together hold exactly these entries. */
  ghost predicate Hold(lists: seq<seq<Entry>>, S: iset<Entry>) {
    Merger.AllApart(lists) && forall e :: e in S <==> exists i :: 0 <= i < |lists| && e in lists[i]
  }

  lemma HoldOne(es: seq<Entry>)
    requires Ordered(es)
    ensures Hold([es], Elements(es))
  {
    assert [es][0] == es;
  }

  lemma HoldBoth(xs: seq<seq<Entry>>, ys: seq<seq<Entry>>, A: iset<Entry>, B: iset<Entry>)
    requires Hold(xs, A) && Hold(ys, B) && NewerThan(A, B)
    ensures Hold(xs + ys, A + B)
  {
    var all := xs + ys;
    forall i, j | 0 <= i < j < |all|
      ensures Merger.Apart(all[i], all[j])
    {
      if j < |xs| {
        assert Merger.Apart(xs[i], xs[j]);
      } else if i >= |xs| {
        assert Merger.Apart(ys[i - |xs|], ys[j - |xs|]);
      } else {
        assert forall x | x in all[i] :: x in A;
        assert forall y | y in all[j] :: y in B;
      }
    }
    forall e
      ensures e in A + B <==> exists i :: 0 <= i < |all| && e in all[i]
    {
      if e in A {
        var i :| 0 <= i < |xs| && e in xs[i];
        assert e in all[i];
      }
      if e in B {
        var i :| 0 <= i < |ys| && e in ys[i];
        assert e in all[|xs| + i];
      }
      if i :| 0 <= i < |all| && e in all[i] {
        assert i < |xs| ==> e in xs[i];
        assert i >= |xs| ==> e in ys[i - |xs|];
      }
    }
  }

  /** AddIterators: every file of level 0 by itself, every other level that has files as one list. */
  function ListsAt(v: Version, l: nat): seq<seq<Entry>>
    requires l < NUM_LEVELS
  {
    if l == 0 then TwoLevel.FileBlocks(v[0])
    else if v[l] == [] then []
    else [TwoLevel.All(TwoLevel.FileBlocks(v[l]))]
  }

  function LevelLists(v: Version, n: nat): seq<seq<Entry>>
    requires n <= NUM_LEVELS
  {
    if n == 0 then [] else LevelLists(v, n - 1) + ListsAt(v, n - 1)
  }

  /** NewInternalIterator's children: the memtables, then the version's lists. */
  function Children(mem: seq<Entry>, imm: Option<seq<Entry>>, v: Version): seq<seq<Entry>> {
    [mem] + ((if imm.Some? then [imm.value] else []) + LevelLists(v, NUM_LEVELS))
  }

  lemma LevelZeroHolds(files: seq<File>)
    requires LevelOk(files, 0)
    ensures Hold(TwoLevel.FileBlocks(files), Contents(files))
  {
    var lists := TwoLevel.FileBlocks(files);
    forall i | 0 <= i < |lists|
      ensures Ordered(lists[i])
    {
      assert files[i] in files;
    }
    forall i, j | 0 <= i < j < |lists|
      ensures Merger.Apart(lists[i], lists[j])
    {
      FilesAreApart(files, files[i], files[j]);
    }
    forall e
      ensures e in Contents(files) <==> exists i :: 0 <= i < |lists| && e in lists[i]
    {
      if e in Contents(files) {
        var f :| f in files && e in f.entries;
        var i :| 0 <= i < |files| && files[i] == f;
        assert e in lists[i];
      }
    }
  }

  lemma FilesAreApart(files: seq<File>, f: File, g: File)
    requires NewestFirstByNumber(files) && f in files && g in files && f.number != g.number
    ensures Merger.Apart(f.entries, g.entries)
  {
    assert NewerThan(Elements(f.entries), Elements(g.entries)) || NewerThan(Elements(g.entries), Elements(f.entries));
    forall x, y | x in f.entries && y in g.entries && x.key.user == y.key.user
      ensures x.key.sequence != y.key.sequence
    {
      assert x in Elements(f.entries) && y in Elements(g.entries);
    }
  }

  lemma LevelHolds(v: Version, l: nat)
    requires VersionOk(v) && l < NUM_LEVELS
    ensures Hold(ListsAt(v, l), Contents(v[l]))
  {
    assert LevelOk(v[l], l);
    if l == 0 {
      LevelZeroHolds(v[0]);
    } else if v[l] != [] {
      TwoLevel.LevelAsBlocks(v[l]);
      HoldOne(TwoLevel.All(TwoLevel.FileBlocks(v[l])));
    }
  }

  /** The entries of the first n levels. */
  ghost function ContentsTo(v: Version, n: nat): iset<Entry>
    requires n <= NUM_LEVELS
  {
    iset e, l | 0 <= l < n && e in Contents(v[l]) :: e
  }

  lemma {:induction false} LevelsHold(v: Version, n: nat)
    requires VersionOk(v) && n <= NUM_LEVELS
    ensures Hold(LevelLists(v, n), ContentsTo(v, n))
  {
    if n > 0 {
      LevelsHold(v, n - 1);
      LevelHolds(v, n - 1);
      forall a, b | a in ContentsTo(v, n - 1) && b in Contents(v[n - 1])
        ensures a.key.user == b.key.user ==> a.key.sequence > b.key.sequence
      {
        var l :| 0 <= l < n - 1 && a in Contents(v[l]);
        assert NewerThan(Contents(v[l]), Contents(v[n - 1]));
      }
      HoldBoth(LevelLists(v, n - 1), ListsAt(v, n - 1), ContentsTo(v, n - 1), Contents(v[n - 1]));
      assert ContentsTo(v, n) == ContentsTo(v, n - 1) + Contents(v[n - 1]);
    }
  }

  /** In every structurally sound state the children have a sorted union, and it is what the state stores. */
  lemma ChildrenHold(s: State, mem: seq<Entry>, imm: Option<seq<Entry>>)
    requires Structural(s) && Holds(s, mem, imm)
    ensures Hold(Children(mem, imm, s.version), Stored(s))
  {
    var v := s.version;
    LevelsHold(v, NUM_LEVELS);
    assert ContentsTo(v, NUM_LEVELS) == ContentsFrom(v, 0);
    var second := if imm.Some? then [imm.value] else [];
    if imm.Some? {
      HoldOne(imm.value);
    }
    HoldBoth(second, LevelLists(v, NUM_LEVELS), Immutable(s), ContentsFrom(v, 0));
    HoldOne(mem);
    HoldBoth([mem], second + LevelLists(v, NUM_LEVELS), s.mem, Immutable(s) + ContentsFrom(v, 0));
  }

  /** What the merging iterator runs over. */
  ghost function Merged(mem: seq<Entry>, imm: Option<seq<Entry>>, v: Version): seq<Entry> {
    Merger.MergeAll(Children(mem, imm, v))
  }

  lemma MergedIsStored(s: State, mem: seq<Entry>, imm: Option<seq<Entry>>)
    requires Structural(s) && Holds(s, mem, imm)
    ensures Merger.IsMergeOf(Merged(mem, imm, s.version), Children(mem, imm, s.version))
    ensures Elements(Merged(mem, imm, s.version)) == Stored(s)
  {
    ChildrenHold(s, mem, imm);
    var lists := Children(mem, imm, s.version);
    Merger.MergeExists(lists);
    assert forall e :: e in Merged(mem, imm, s.version) <==> e in Stored(s);
  }

  // ---------------------------------------------------------------- iteration

  /**
   One iterator for each child, all of them distinct, under a merging iterator: it runs over what the state stores.
   */
  method NewInternalIterator(ghost s: State, mem: seq<Entry>, imm: Option<seq<Entry>>, v: Version)
    returns (iter: Merger.MergingIterator)
    requires Structural(s) && Holds(s, mem, imm) && v == s.version
    ensures fresh(iter) && fresh(iter.Repr()) && iter.Inv() && iter.at == None
    ensures Ordered(iter.merged) && Elements(iter.merged) == Stored(s)
  {
    MergedIsStored(s, mem, imm);
    var lists := Children(mem, imm, v);
    var children: seq<ListIterator> := [];
    for i := 0 to |lists|
      invariant |children| == i
      invariant forall k | 0 <= k < i :: fresh(children[k]) && children[k].entries == lists[k]
      invariant forall k, m | 0 <= k < m < i :: children[k] != children[m]
    {
      var child := new ListIterator(lists[i]);
      children := children + [child];
    }
    assert lists == seq(|children|, i requires 0 <= i < |children| => children[i].entries);
    iter := new Merger.MergingIterator(children, Merged(mem, imm, v));
  }

  /** Strictly ascending user keys with the values that the operations leave them at, and no others. */
  ghost predicate ShowsHistory(view: seq<(UserKey, Value)>, operations: seq<Operation>) {
    && (forall k, l | 0 <= k < l < |view| :: view[k].0 < view[l].0)
    && forall u: UserKey, value: Value :: (u, value) in view <==> LastOn(operations, u) == Found(value)
  }

  /**
   The whole read path of an iterator. In state j, at a snapshot taken by state i and not yet released, a list that
   holds what is stored shows through DBIter's eyes exactly the keys at values after the run's first n operations.
   */
  lemma IterationShowsHistory(states: seq<State>, steps: seq<Step>, i: nat, j: nat, es: seq<Entry>, n: SequenceNumber)
    requires IsRun(states, steps) && i <= j < |states| && AllGuarded(states, steps, j)
    requires n <= states[i].lastSequence && OldestSnapshot(states[j]) <= n
    requires Ordered(es) && Elements(es) == Stored(states[j])
    ensures ShowsHistory(DBIterator.View(es, |es|, n), WrittenBy(steps, i, n))
  {
    var view := DBIterator.View(es, |es|, n);
    DBIterator.ViewAscends(es, n);
    forall u: UserKey, value: Value
      ensures (u, value) in view <==> LastOn(WrittenBy(steps, i, n), u) == Found(value)
    {
      HistoryReads(states, steps, i, u, n);
      DBIterator.ViewIsWhatReadersSee(es, n, u, value);
      SnapshotsNeverChange(states, steps, i, j, u, n);
    }
  }

  /** DBImpl::NewIterator: DBIter over the merging iterator over all children. */
  method NewIterator(ghost states: seq<State>, ghost steps: seq<Step>, ghost i: nat, ghost j: nat,
                     mem: seq<Entry>, imm: Option<seq<Entry>>, v: Version, n: SequenceNumber)
    returns (it: DBIterator.DBIter)
    requires IsRun(states, steps) && i <= j < |states| && AllGuarded(states, steps, j)
    requires n <= states[i].lastSequence && OldestSnapshot(states[j]) <= n
    requires Holds(states[j], mem, imm) && v == states[j].version
    ensures fresh(it) && fresh(it.iter) && fresh(it.iter.Repr()) && it.Inv()
    ensures ShowsHistory(it.Contents(), WrittenBy(steps, i, n))
  {
    RunKeepsStructure(states, steps, j);
    var iter := NewInternalIterator(states[j], mem, imm, v);
    it := new DBIterator.DBIter(iter, n);
    IterationShowsHistory(states, steps, i, j, iter.merged, n);
  }

  /** The pair the iterator is on, and one step on. */
  method Take(it: DBIterator.DBIter, ghost all: seq<(UserKey, Value)>, ghost k: nat) returns (pair: (UserKey, Value))
    requires it.Inv() && it.valid && it.Contents() == all && it.At() == AtIndex(|all|, k)
    modifies it, it.iter, it.iter.Repr()
    ensures it.Inv() && it.Contents() == all && k < |all| && pair == all[k] && it.At() == AtIndex(|all|, k + 1)
  {
    it.CurrentPair();
    pair := (it.Key(), it.Value());
    it.Next();
  }

  /** A scan from front to back gives all that the iterator shows, in order. */
  method Scan(it: DBIterator.DBIter) returns (pairs: seq<(UserKey, Value)>)
    requires it.Inv()
    modifies it, it.iter, it.iter.Repr()
    ensures pairs == it.Contents() == old(it.Contents())
  {
    ghost var all := it.Contents();
    pairs := [];
    it.SeekToFirst();
    while it.valid
      invariant it.Inv() && it.Contents() == all
      invariant it.At() == AtIndex(|all|, |pairs|) && |pairs| <= |all| && pairs == all[..|pairs|]
      decreases |all| - |pairs|
    {
      var pair := Take(it, all, |pairs|);
      Slices.OneMore(all, |pairs|);
      pairs := pairs + [pair];
    }
    it.NotOnPair();
    assert all[..|all|] == all;
  }

  /**
   Reading everything: in any state of a guarded run, a scan at a snapshot taken earlier gives, in order of their keys,
   exactly the keys that the first n operations of the run leave at a value, with that value.
   */
  method ScanInRun(ghost states: seq<State>, ghost steps: seq<Step>, ghost i: nat, ghost j: nat,
                   mem: seq<Entry>, imm: Option<seq<Entry>>, v: Version, n: SequenceNumber)
    returns (pairs: seq<(UserKey, Value)>)
    requires IsRun(states, steps) && i <= j < |states| && AllGuarded(states, steps, j)
    requires n <= states[i].lastSequence && OldestSnapshot(states[j]) <= n
    requires Holds(states[j], mem, imm) && v == states[j].version
    ensures ShowsHistory(pairs, WrittenBy(steps, i, n))
  {
    var it := NewIterator(states, steps, i, j, mem, imm, v, n);
    pairs := Scan(it);
  }
}
