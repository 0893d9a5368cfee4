/**
 The MANIFEST: Builder's Apply and SaveTo, LogAndApply, and Recover's replay of all records through one builder
 (version_set.cc).
 */
module Manifest {
  import opened Reads
  import opened Rewrites
  import opened Selection
  import opened VersionBuilder
  import opened Versions

  // ---------------------------------------------------------------- the builder

  /** Files inserted one after the other into an ordered set. */
  function InsertAll(files: seq<File>, added: seq<(nat, File)>, l: nat): seq<File> {
    if added == [] then files
    else
      var rest := InsertAll(files, added[..|added| - 1], l);
      var last := added[|added| - 1];
      if last.0 == l then InsertSorted(rest, last.1) else rest
  }

  function NumbersAt(added: seq<(nat, File)>, l: nat): set<nat> {
    set a | a in added && a.0 == l :: a.1.number
  }

  function DeletionsAt(deleted: set<(nat, nat)>, l: nat): set<nat> {
    set d | d in deleted && d.0 == l :: d.1
  }

  ghost predicate EditLevelsOk(e: VersionEdit) {
    (forall d | d in e.deleted :: d.0 < NUM_LEVELS) && (forall a | a in e.added :: a.0 < NUM_LEVELS)
  }

  class Builder {
    const base: Version
    var deleted: seq<set<nat>>
    var added: seq<seq<File>>

    ghost predicate Valid()
      reads this
    {
      |deleted| == NUM_LEVELS && |added| == NUM_LEVELS
    }

    constructor (base: Version)
      ensures Valid() && this.base == base
      ensures forall l | 0 <= l < NUM_LEVELS :: deleted[l] == {} && added[l] == []
    {
      this.base := base;
      deleted := seq(NUM_LEVELS, l => {});
      added := seq(NUM_LEVELS, l => []);
    }

    /** Applies all of an edit: deletions first, then additions, which take back a deletion of the same number. */
    method Apply(e: VersionEdit)
      requires Valid() && EditLevelsOk(e)
      modifies this
      ensures Valid()
      ensures forall l | 0 <= l < NUM_LEVELS ::
                && deleted[l] == old(deleted[l]) + DeletionsAt(e.deleted, l) - NumbersAt(e.added, l)
                && added[l] == InsertAll(old(added[l]), e.added, l)
    {
      Delete(e.deleted);
      ghost var before := deleted;
      for i := 0 to |e.added|
        invariant Valid()
        invariant forall l | 0 <= l < NUM_LEVELS ::
                    && deleted[l] == before[l] - NumbersAt(e.added[..i], l)
                    && added[l] == InsertAll(old(added[l]), e.added[..i], l)
      {
        var level, f := e.added[i].0, e.added[i].1;
        assert e.added[i] in e.added;
        assert e.added[..i + 1][..i] == e.added[..i];
        forall l | 0 <= l < NUM_LEVELS
          ensures NumbersAt(e.added[..i + 1], l) == NumbersAt(e.added[..i], l) + if l == level then {f.number} else {}
        {
          OneMoreNumber(e.added, i, l);
        }
        deleted := deleted[level := deleted[level] - {f.number}];
        added := added[level := InsertSorted(added[level], f)];
      }
      assert e.added[..|e.added|] == e.added;
    }

    method Delete(all: set<(nat, nat)>)
      requires Valid() && forall d | d in all :: d.0 < NUM_LEVELS
      modifies this`deleted
      ensures Valid()
      ensures forall l | 0 <= l < NUM_LEVELS :: deleted[l] == old(deleted[l]) + DeletionsAt(all, l)
    {
      var rest := all;
      while rest != {}
        invariant Valid() && rest <= all
        invariant forall l | 0 <= l < NUM_LEVELS :: deleted[l] == old(deleted[l]) + DeletionsAt(all - rest, l)
        decreases |rest|
      {
        var d :| d in rest;
        forall l | 0 <= l < NUM_LEVELS
          ensures DeletionsAt(all - (rest - {d}), l) == DeletionsAt(all - rest, l) + if l == d.0 then {d.1} else {}
        {
          OneMoreDeletion(all - rest, d, l);
          assert all - (rest - {d}) == all - rest + {d};
        }
        deleted := deleted[d.0 := deleted[d.0] + {d.1}];
        rest := rest - {d};
      }
      assert all - rest == all;
    }

    /** The version that the base and everything applied add up to. */
    method SaveTo() returns (v: Version)
      requires Valid() && forall l | 0 <= l < NUM_LEVELS :: SortedBySmallest(base[l])
      ensures forall l | 0 <= l < NUM_LEVELS :: v[l] == SaveLevel(base[l], deleted[l], added[l])
    {
      var levels: seq<seq<File>> := [];
      for l := 0 to NUM_LEVELS
        invariant |levels| == l
        invariant forall k | 0 <= k < l :: levels[k] == SaveLevel(base[k], deleted[k], added[k])
      {
        var files := SaveOneLevel(base[l], deleted[l], added[l]);
        levels := levels + [files];
      }
      v := levels;
    }
  }

  lemma OneMoreNumber(added: seq<(nat, File)>, i: nat, l: nat)
    requires i < |added|
    ensures NumbersAt(added[..i + 1], l)
         == NumbersAt(added[..i], l) + if l == added[i].0 then {added[i].1.number} else {}
  {
    assert added[..i + 1] == added[..i] + [added[i]];
  }

  lemma OneMoreDeletion(deleted: set<(nat, nat)>, d: (nat, nat), l: nat)
    ensures DeletionsAt(deleted + {d}, l) == DeletionsAt(deleted, l) + if l == d.0 then {d.1} else {}
  {
  }

  /** One level of SaveTo: base files up to each added file's place, the added file, and so on. */
  method SaveOneLevel(base: seq<File>, deleted: set<nat>, added: seq<File>) returns (files: seq<File>)
    requires SortedBySmallest(base)
    ensures files == SaveLevel(base, deleted, added)
  {
    files := [];
    var b := 0;
    assert base[0..] == base && added[0..] == added;
    for a := 0 to |added|
      invariant b <= |base|
      invariant files + SaveLevel(base[b..], deleted, added[a..]) == SaveLevel(base, deleted, added)
    {
      while b < |base| && !BySmallest(added[a], base[b])
        invariant b <= |base|
        invariant files + SaveLevel(base[b..], deleted, added[a..]) == SaveLevel(base, deleted, added)
      {
        BaseGoesFirst(base, b, deleted, added, a, files);
        files := MaybeAddFile(files, deleted, base[b]);
        b := b + 1;
      }
      AddedGoesFirst(base, b, deleted, added, a, files);
      files := MaybeAddFile(files, deleted, added[a]);
    }
    while b < |base|
      invariant b <= |base|
      invariant files + SaveLevel(base[b..], deleted, added[|added|..]) == SaveLevel(base, deleted, added)
    {
      RestOfBase(base, b, deleted, added, files);
      files := MaybeAddFile(files, deleted, base[b]);
      b := b + 1;
    }
    assert base[b..] == [] && added[|added|..] == [];
  }

  function KeptFile(deleted: set<nat>, f: File): seq<File> {
    if f.number in deleted then [] else [f]
  }

  method MaybeAddFile(files: seq<File>, deleted: set<nat>, f: File) returns (after: seq<File>)
    ensures after == files + KeptFile(deleted, f)
  {
    after := if f.number in deleted then files else files + [f];
  }

  lemma BaseGoesFirst(base: seq<File>, b: nat, deleted: set<nat>, added: seq<File>, a: nat, files: seq<File>)
    requires b < |base| && a < |added| && !BySmallest(added[a], base[b])
    ensures (files + KeptFile(deleted, base[b])) + SaveLevel(base[b + 1..], deleted, added[a..])
         == files + SaveLevel(base[b..], deleted, added[a..])
  {
    assert base[b..][1..] == base[b + 1..];
    var merged := Merge(base[b + 1..], added[a..]);
    assert ([base[b]] + merged)[1..] == merged;
  }

  lemma AddedGoesFirst(base: seq<File>, b: nat, deleted: set<nat>, added: seq<File>, a: nat, files: seq<File>)
    requires b <= |base| && a < |added| && (b < |base| ==> BySmallest(added[a], base[b]))
    ensures (files + KeptFile(deleted, added[a])) + SaveLevel(base[b..], deleted, added[a + 1..])
         == files + SaveLevel(base[b..], deleted, added[a..])
  {
    assert added[a..][1..] == added[a + 1..];
    var merged := Merge(base[b..], added[a + 1..]);
    if b == |base| {
      assert merged == added[a + 1..] && Merge(base[b..], added[a..]) == added[a..];
      assert added[a..] == [added[a]] + merged;
    }
    assert ([added[a]] + merged)[1..] == merged;
  }

  lemma RestOfBase(base: seq<File>, b: nat, deleted: set<nat>, added: seq<File>, files: seq<File>)
    requires b < |base|
    ensures (files + KeptFile(deleted, base[b])) + SaveLevel(base[b + 1..], deleted, added[|added|..])
         == files + SaveLevel(base[b..], deleted, added[|added|..])
  {
    assert base[b..] == [base[b]] + base[b + 1..];
    assert Merge(base[b..], []) == base[b..] && Merge(base[b + 1..], []) == base[b + 1..];
    assert ([base[b]] + base[b + 1..])[1..] == base[b + 1..];
  }

  lemma {:induction false} InsertAllFromNothing(added: seq<(nat, File)>, l: nat)
    ensures InsertAll([], added, l) == AddedAt(added, l)
  {
    if added != [] {
      InsertAllFromNothing(added[..|added| - 1], l);
    }
  }

  // ---------------------------------------------------------------- one builder for all edits, or one for each

  /** What one builder holds after a list of edits. */
  datatype Totals = Totals(deleted: set<nat>, added: seq<File>)

  function AddUp(t: Totals, e: VersionEdit, l: nat): Totals {
    Totals(t.deleted + DeletionsAt(e.deleted, l) - NumbersAt(e.added, l), InsertAll(t.added, e.added, l))
  }

  function Total(edits: seq<VersionEdit>, l: nat): Totals {
    if edits == [] then Totals({}, []) else AddUp(Total(edits[..|edits| - 1], l), edits[|edits| - 1], l)
  }

  /** WriteSnapshot: the edit that adds every file of a version. */
  function LevelAdditions(files: seq<File>, l: nat): seq<(nat, File)> {
    seq(|files|, i requires 0 <= i < |files| => (l, files[i]))
  }

  function Additions(v: Version, n: nat): seq<(nat, File)>
    requires n <= NUM_LEVELS
  {
    if n == 0 then [] else Additions(v, n - 1) + LevelAdditions(v[n - 1], n - 1)
  }

  function Snapshot(v: Version): VersionEdit {
    VersionEdit({}, Additions(v, NUM_LEVELS))
  }

  /** The files that were ever added at a level. */
  function EverAdded(edits: seq<VersionEdit>, l: nat): set<nat> {
    if edits == [] then {} else EverAdded(edits[..|edits| - 1], l) + NumbersAt(edits[|edits| - 1].added, l)
  }

  ghost predicate AddsNew(edits: seq<VersionEdit>, e: VersionEdit, l: nat) {
    EverAdded(edits, l) !! NumbersAt(e.added, l)
  }

  ghost predicate AddsOnlyNew(edits: seq<VersionEdit>, e: VersionEdit) {
    AddedDistinct(e.added) && forall l | 0 <= l < NUM_LEVELS :: AddsNew(edits, e, l)
  }

  /** No number is added to a level twice, so none is added back to a level that it was deleted from. */
  ghost predicate AddsOnce(edits: seq<VersionEdit>) {
    edits != [] ==>
      && AddsOnce(edits[..|edits| - 1])
      && AddsOnlyNew(edits[..|edits| - 1], edits[|edits| - 1])
  }

  ghost predicate SortedFresh(files: seq<File>, numbers: set<nat>) {
    SortedBySmallest(files) && forall f | f in files :: f.number in numbers
  }

  /** Inserting files with new numbers: all of them end up in the set, which stays sorted. */
  lemma {:induction false} InsertAllMeans(files: seq<File>, added: seq<(nat, File)>, l: nat)
    requires SortedBySmallest(files) && AddedDistinct(added)
    requires forall f, a | f in files && a in added && a.0 == l :: f.number != a.1.number
    ensures SortedBySmallest(InsertAll(files, added, l))
    ensures forall f :: f in InsertAll(files, added, l) <==> f in files || (l, f) in added
  {
    if added != [] {
      var init, last := added[..|added| - 1], added[|added| - 1];
      assert added == init + [last];
      InsertAllMeans(files, init, l);
      var rest := InsertAll(files, init, l);
      InsertSortedKeepsOrder(rest, last.1);
      InsertSortedElements(rest, last.1);
      if last.0 == l {
        forall g | g in rest
          ensures g.number != last.1.number
        {
          if (l, g) in init {
            var i :| 0 <= i < |init| && init[i] == (l, g);
            assert added[i] == (l, g) && added[|init|] == last;
          } else {
            assert g in files && last in added;
          }
        }
      }
    }
  }

  lemma {:induction false} TotalMeans(edits: seq<VersionEdit>, l: nat)
    requires AddsOnce(edits) && l < NUM_LEVELS
    ensures SortedFresh(Total(edits, l).added, EverAdded(edits, l))
    ensures Total(edits, l).deleted * NumbersAt(if edits == [] then [] else edits[|edits| - 1].added, l) == {}
  {
    if edits != [] {
      var init, e := edits[..|edits| - 1], edits[|edits| - 1];
      TotalMeans(init, l);
      var t := Total(init, l);
      assert AddsNew(init, e, l);
      forall f, a | f in t.added && a in e.added && a.0 == l
        ensures f.number != a.1.number
      {
        assert f.number in EverAdded(init, l) && a.1.number in NumbersAt(e.added, l);
      }
      InsertAllMeans(t.added, e.added, l);
      forall f | f in InsertAll(t.added, e.added, l)
        ensures f.number in EverAdded(edits, l)
      {
        if (l, f) in e.added {
          assert f.number in NumbersAt(e.added, l);
        }
      }
    }
  }

  /** A level is what one builder's totals come to. */
  ghost predicate LevelIs(files: seq<File>, t: Totals) {
    && SortedBySmallest(files)
    && forall f :: f in files <==> f in t.added && f.number !in t.deleted
  }

  /** One more edit, applied to the version or added to the totals, keeps the two in step. */
  lemma EditKeepsLevel(v: Version, edits: seq<VersionEdit>, e: VersionEdit, l: nat)
    requires AddsOnce(edits + [e]) && l < NUM_LEVELS
    requires LevelIs(v[l], Total(edits, l))
    ensures LevelIs(ApplyEdit(v, e)[l], AddUp(Total(edits, l), e, l))
  {
    var t := Total(edits, l);
    assert (edits + [e])[..|edits|] == edits;
    TotalMeans(edits, l);
    assert AddsNew(edits, e, l);
    forall f, a | f in t.added && a in e.added && a.0 == l
      ensures f.number != a.1.number
    {
      assert f.number in EverAdded(edits, l) && a.1.number in NumbersAt(e.added, l);
    }
    ApplyEditMeans(v, e, l);
    InsertAllMeans(t.added, e.added, l);
    var u := AddUp(t, e, l);
    forall f
      ensures f in ApplyEdit(v, e)[l] <==> f in u.added && f.number !in u.deleted
    {
      if (l, f) in e.added {
        assert f.number in NumbersAt(e.added, l);
      } else if f in t.added {
        assert f.number !in NumbersAt(e.added, l);
        assert f.number in DeletionsAt(e.deleted, l) <==> (l, f.number) in e.deleted;
      }
    }
  }

  lemma {:induction false} AdditionsHold(v: Version, n: nat, l: nat, f: File)
    requires n <= NUM_LEVELS
    ensures (l, f) in Additions(v, n) <==> l < n && f in v[l]
  {
    if n > 0 {
      AdditionsHold(v, n - 1, l, f);
      if n - 1 == l && f in v[l] {
        var i :| 0 <= i < |v[l]| && v[l][i] == f;
        assert LevelAdditions(v[l], l)[i] == (l, f);
      }
    }
  }

  /** The file numbers of a version are all different, within levels and across them. */
  ghost predicate DistinctNumbersIn(v: Version) {
    AddedDistinct(Additions(v, NUM_LEVELS))
  }

  /** A builder given only the snapshot holds the version it was taken of. */
  lemma SnapshotIsVersion(v: Version, l: nat)
    requires l < NUM_LEVELS && SortedBySmallest(v[l]) && DistinctNumbersIn(v)
    ensures LevelIs(v[l], Total([Snapshot(v)], l))
  {
    var added := Additions(v, NUM_LEVELS);
    assert [Snapshot(v)][..0] == [];
    assert Total([Snapshot(v)], l) == AddUp(Total([], l), Snapshot(v), l);
    InsertAllMeans([], added, l);
    assert DeletionsAt({}, l) == {};
    forall f
      ensures f in v[l] <==> f in InsertAll([], added, l)
    {
      AdditionsHold(v, NUM_LEVELS, l, f);
    }
  }

  lemma SnapshotAddsOnce(v: Version)
    requires DistinctNumbersIn(v)
    ensures AddsOnce([Snapshot(v)])
  {
    assert [Snapshot(v)][..0] == [];
    forall l | 0 <= l < NUM_LEVELS
      ensures AddsNew([], Snapshot(v), l)
    {
    }
  }

  // ---------------------------------------------------------------- the MANIFEST

  datatype Record = Record(edit: VersionEdit, logNumber: Option<nat>, prevLogNumber: Option<nat>,
                           nextFile: Option<nat>, lastSequence: Option<nat>)

  function EditsOf(records: seq<Record>): seq<VersionEdit> {
    seq(|records|, i requires 0 <= i < |records| => records[i].edit)
  }

  /** The value of the last record that has one. */
  function Latest(values: seq<Option<nat>>): Option<nat> {
    if values == [] then None
    else if values[|values| - 1].Some? then values[|values| - 1]
    else Latest(values[..|values| - 1])
  }

  function LogNumbers(records: seq<Record>): seq<Option<nat>> {
    seq(|records|, i requires 0 <= i < |records| => records[i].logNumber)
  }

  function PrevLogNumbers(records: seq<Record>): seq<Option<nat>> {
    seq(|records|, i requires 0 <= i < |records| => records[i].prevLogNumber)
  }

  function NextFiles(records: seq<Record>): seq<Option<nat>> {
    seq(|records|, i requires 0 <= i < |records| => records[i].nextFile)
  }

  function LastSequences(records: seq<Record>): seq<Option<nat>> {
    seq(|records|, i requires 0 <= i < |records| => records[i].lastSequence)
  }

  datatype Recovered = Recovered(version: Version, logNumber: nat, prevLogNumber: nat, manifestFile: nat, nextFile: nat,
                                 lastSequence: nat)

  const EMPTY: Version := seq(NUM_LEVELS, l => [])

  /** Recover: every record into one builder, and the latest of each number; an error if one is missing. */
  method Recover(records: seq<Record>) returns (r: Option<Recovered>)
    requires forall i | 0 <= i < |records| :: EditLevelsOk(records[i].edit)
    ensures r.Some? <==>
              && Latest(NextFiles(records)).Some? && Latest(LogNumbers(records)).Some?
              && Latest(LastSequences(records)).Some?
    ensures r.Some? ==>
              && Some(r.value.logNumber) == Latest(LogNumbers(records))
              && r.value.prevLogNumber
                == (if Latest(PrevLogNumbers(records)).Some? then Latest(PrevLogNumbers(records)).value else 0)
              && Some(r.value.manifestFile) == Latest(NextFiles(records))
                && r.value.nextFile == r.value.manifestFile + 1
              && Some(r.value.lastSequence) == Latest(LastSequences(records))
              && forall l | 0 <= l < NUM_LEVELS ::
                   r.value.version[l]
                     == SaveLevel([], Total(EditsOf(records), l).deleted, Total(EditsOf(records), l).added)
  {
    var counters := Counters(None, None, None, None);
    var builder := new Builder(EMPTY);
    for i := 0 to |records|
      invariant fresh(builder) && builder.Valid() && builder.base == EMPTY
      invariant forall l | 0 <= l < NUM_LEVELS ::
                  Totals(builder.deleted[l], builder.added[l]) == Total(EditsOf(records[..i]), l)
      invariant counters == CountersOf(records[..i])
    {
      OneMoreRecord(records, i);
      builder.Apply(records[i].edit);
      counters := Note(counters, records, i);
    }
    assert records[..|records|] == records;
    if counters.nextFile.None? || counters.logNumber.None? || counters.lastSequence.None? {
      return None;
    }
    var prevLogNumber := if counters.prevLogNumber.None? then 0 else counters.prevLogNumber.value;
    // MarkFileNumberUsed is called here with both log numbers; the assignment to next_file_number_ then undoes it.
    var version := builder.SaveTo();
    r := Some(Recovered(version, counters.logNumber.value, prevLogNumber, counters.nextFile.value,
                        counters.nextFile.value + 1, counters.lastSequence.value));
  }

  /** The latest of each number so far. */
  datatype Counters = Counters(logNumber: Option<nat>, prevLogNumber: Option<nat>, nextFile: Option<nat>,
                               lastSequence: Option<nat>)

  function CountersOf(records: seq<Record>): Counters {
    Counters(Latest(LogNumbers(records)), Latest(PrevLogNumbers(records)), Latest(NextFiles(records)),
             Latest(LastSequences(records)))
  }

  /** What one more record has to say about the numbers. */
  method Note(counters: Counters, records: seq<Record>, i: nat) returns (after: Counters)
    requires i < |records| && counters == CountersOf(records[..i])
    ensures after == CountersOf(records[..i + 1])
  {
    after := counters;
    var record := records[i];
    OneMoreRecord(records, i);
    if record.logNumber.Some? {
      after := after.(logNumber := record.logNumber);
    }
    if record.prevLogNumber.Some? {
      after := after.(prevLogNumber := record.prevLogNumber);
    }
    if record.nextFile.Some? {
      after := after.(nextFile := record.nextFile);
    }
    if record.lastSequence.Some? {
      after := after.(lastSequence := record.lastSequence);
    }
  }

  lemma OneMoreRecord(records: seq<Record>, i: nat)
    requires i < |records|
    ensures var before, after := records[..i], records[..i + 1];
            && EditsOf(after)[..i] == EditsOf(before) && EditsOf(after)[i] == records[i].edit
            && LogNumbers(after)[..i] == LogNumbers(before) && LogNumbers(after)[i] == records[i].logNumber
            && PrevLogNumbers(after)[..i] == PrevLogNumbers(before)
              && PrevLogNumbers(after)[i] == records[i].prevLogNumber
            && NextFiles(after)[..i] == NextFiles(before) && NextFiles(after)[i] == records[i].nextFile
            && LastSequences(after)[..i] == LastSequences(before) && LastSequences(after)[i] == records[i].lastSequence
  {
  }

  // ---------------------------------------------------------------- writing it

  function SnapshotRecord(v: Version): Record {
    Record(Snapshot(v), None, None, None, None)
  }

  /** What LogAndApply works on: the current version, the counters, and the MANIFEST so far. */
  class VersionLog {
    var current: Version
    var manifest: seq<Record>
    /** descriptor_log_ is set: this run has begun its MANIFEST. */
    var begun: bool
    var logNumber: nat
    var prevLogNumber: nat
    var nextFileNumber: nat
    var lastSequence: nat

    ghost predicate Valid()
      reads this
    {
      && (forall l | 0 <= l < NUM_LEVELS :: SortedBySmallest(current[l]))
      && DistinctNumbersIn(current)
      && logNumber < nextFileNumber && AllBelow(Edits(), nextFileNumber)
      && (begun ==> SaysAll(manifest, current, logNumber, prevLogNumber))
    }

    /** Continues a MANIFEST that has not been begun: the first call writes the snapshot. */
    constructor (v: Version, logNumber: nat, prevLogNumber: nat, nextFileNumber: nat, lastSequence: nat)
      requires (forall l | 0 <= l < NUM_LEVELS :: SortedBySmallest(v[l])) && DistinctNumbersIn(v)
      requires logNumber < nextFileNumber && AllBelow([Snapshot(v)], nextFileNumber)
      ensures Valid() && current == v && !begun
    {
      assert EditsOf([SnapshotRecord(v)]) == [Snapshot(v)];
      current, manifest, begun := v, [], false;
      this.logNumber, this.prevLogNumber := logNumber, prevLogNumber;
      this.nextFileNumber, this.lastSequence := nextFileNumber, lastSequence;
    }

    /** NewFileNumber and SetLastSequence, which other parts call between edits. */
    method Advance(files: nat, sequence: nat)
      requires Valid() && files >= nextFileNumber && sequence >= lastSequence
      modifies this`nextFileNumber, this`lastSequence
      ensures Valid()
    {
      nextFileNumber, lastSequence := files, sequence;
    }

    /** The MANIFEST as it stands, or as it will begin. */
    ghost function Records(): seq<Record>
      reads this
    {
      if begun then manifest else [SnapshotRecord(current)]
    }

    /** The edits a builder would replay, were the MANIFEST to end here. */
    ghost function Edits(): seq<VersionEdit>
      reads this
    {
      EditsOf(Records())
    }

    method LogAndApply(e: VersionEdit, log: Option<nat>, prevLog: Option<nat>)
      requires Valid() && EditLevelsOk(e)
      requires log.Some? ==> logNumber <= log.value < nextFileNumber
      requires forall a | a in e.added :: a.1.number < nextFileNumber
      requires AddsOnlyNew(Edits(), e) && DistinctNumbersIn(ApplyEdit(current, e))
      modifies this
      ensures Valid() && begun && current == ApplyEdit(old(current), e)
      ensures manifest == old(Records())
                          + [Record(e, Some(logNumber), Some(prevLogNumber), Some(nextFileNumber), Some(lastSequence))]
      ensures logNumber == (if log.Some? then log.value else old(logNumber))
      ensures prevLogNumber == (if prevLog.Some? then prevLog.value else old(prevLogNumber))
      ensures nextFileNumber == old(nextFileNumber) && lastSequence == old(lastSequence)
    {
      var edit := Record(e, if log.Some? then log else Some(logNumber),
                         if prevLog.Some? then prevLog else Some(prevLogNumber),
                         Some(nextFileNumber), Some(lastSequence));
      var v := NextVersion(current, e);
      WriteRecord(edit, v);
    }

    /** A record that fits: what is asked of its edit, and its numbers are set. */
    ghost predicate RecordFits(edit: Record, v: Version)
      reads this
    {
      && EditLevelsOk(edit.edit) && v == ApplyEdit(current, edit.edit)
      && edit.logNumber.Some? && edit.prevLogNumber.Some? && edit.logNumber.value < nextFileNumber
      && edit.nextFile == Some(nextFileNumber) && edit.lastSequence.Some?
      && (forall a | a in edit.edit.added :: a.1.number < nextFileNumber)
      && AddsOnlyNew(Edits(), edit.edit) && DistinctNumbersIn(v)
    }

    /** The MANIFEST begun if need be, the record in it, and then the version and the log numbers. */
    method WriteRecord(edit: Record, v: Version)
      requires Valid() && RecordFits(edit, v)
      modifies this`manifest, this`current, this`logNumber, this`prevLogNumber, this`begun
      ensures Valid() && begun && manifest == old(Records()) + [edit] && current == v
      ensures logNumber == edit.logNumber.value && prevLogNumber == edit.prevLogNumber.value
    {
      if !begun {
        WriteSnapshot();
      }
      AppendRecord(edit, v);
    }

    method AppendRecord(edit: Record, v: Version)
      requires Valid() && begun && RecordFits(edit, v)
      modifies this`manifest, this`current, this`logNumber, this`prevLogNumber
      ensures Valid() && manifest == old(manifest) + [edit] && current == v
      ensures logNumber == edit.logNumber.value && prevLogNumber == edit.prevLogNumber.value
    {
      AddsBelow(EditsOf(manifest), edit.edit, nextFileNumber);
      RecordKeeps(manifest, current, edit);
      Install(edit, v);
    }

    /** A new MANIFEST begins with the current version. */
    method WriteSnapshot()
      requires Valid() && !begun
      modifies this`manifest, this`begun
      ensures Valid() && begun && manifest == [SnapshotRecord(current)] == old(Records())
    {
      SnapshotRecords(current, logNumber, prevLogNumber);
      manifest := [SnapshotRecord(current)];
      begun := true;
    }

    method Install(edit: Record, v: Version)
      requires edit.logNumber.Some? && edit.prevLogNumber.Some?
      requires SaysAll(manifest + [edit], v, edit.logNumber.value, edit.prevLogNumber.value) && begun
                 && DistinctNumbersIn(v)
      requires edit.logNumber.value < nextFileNumber && AllBelow(EditsOf(manifest + [edit]), nextFileNumber)
      modifies this`manifest, this`current, this`logNumber, this`prevLogNumber
      ensures Valid() && manifest == old(manifest) + [edit] && current == v
      ensures logNumber == edit.logNumber.value && prevLogNumber == edit.prevLogNumber.value
    {
      manifest := manifest + [edit];
      current := v;
      logNumber := edit.logNumber.value;
      prevLogNumber := edit.prevLogNumber.value;
      assert forall l | 0 <= l < NUM_LEVELS :: LevelIs(current[l], Total(EditsOf(manifest), l));
    }
  }

  /** One builder over one version and one edit. */
  method NextVersion(v: Version, e: VersionEdit) returns (after: Version)
    requires EditLevelsOk(e) && forall l | 0 <= l < NUM_LEVELS :: SortedBySmallest(v[l])
    ensures after == ApplyEdit(v, e)
  {
    var builder := new Builder(v);
    builder.Apply(e);
    after := builder.SaveTo();
    forall l | 0 <= l < NUM_LEVELS
      ensures after[l] == ApplyEdit(v, e)[l]
    {
      InsertAllFromNothing(e.added, l);
      assert builder.deleted[l] == DeletedAt(e, l);
    }
  }

  /** The MANIFEST says what the version set holds: the snapshot alone says nothing about the numbers yet. */
  ghost predicate SaysAll(records: seq<Record>, v: Version, logNumber: nat, prevLogNumber: nat) {
    && records != []
    && AddsOnce(EditsOf(records))
    && (forall i | 0 <= i < |records| :: EditLevelsOk(records[i].edit))
    && (forall l | 0 <= l < NUM_LEVELS :: LevelIs(v[l], Total(EditsOf(records), l)))
    && (|records| > 1 ==>
          && Latest(LogNumbers(records)) == Some(logNumber) && Latest(PrevLogNumbers(records)) == Some(prevLogNumber)
          && Latest(LastSequences(records)).Some? && Latest(NextFiles(records)).Some?
          && logNumber < Latest(NextFiles(records)).value
            && AllBelow(EditsOf(records), Latest(NextFiles(records)).value))
  }

  /** Every file number that was ever added is below this one. */
  ghost predicate AllBelow(edits: seq<VersionEdit>, next: nat) {
    forall l, n | 0 <= l < NUM_LEVELS && n in EverAdded(edits, l) :: n < next
  }

  lemma AddsBelow(edits: seq<VersionEdit>, e: VersionEdit, next: nat)
    requires AllBelow(edits, next) && forall a | a in e.added :: a.1.number < next
    ensures AllBelow(edits + [e], next)
  {
    assert (edits + [e])[..|edits|] == edits;
  }

  lemma SnapshotRecords(v: Version, logNumber: nat, prevLogNumber: nat)
    requires (forall l | 0 <= l < NUM_LEVELS :: SortedBySmallest(v[l])) && DistinctNumbersIn(v)
    ensures SaysAll([SnapshotRecord(v)], v, logNumber, prevLogNumber)
  {
    var records := [SnapshotRecord(v)];
    assert EditsOf(records) == [Snapshot(v)];
    SnapshotAddsOnce(v);
    forall l | 0 <= l < NUM_LEVELS
      ensures LevelIs(v[l], Total(EditsOf(records), l))
    {
      SnapshotIsVersion(v, l);
    }
    forall a | a in Additions(v, NUM_LEVELS)
      ensures a.0 < NUM_LEVELS
    {
      AdditionsHold(v, NUM_LEVELS, a.0, a.1);
    }
  }

  lemma RecordKeeps(records: seq<Record>, v: Version, r: Record)
    requires records != [] && AddsOnce(EditsOf(records)) && AddsOnlyNew(EditsOf(records), r.edit)
               && EditLevelsOk(r.edit)
    requires forall i | 0 <= i < |records| :: EditLevelsOk(records[i].edit)
    requires forall l | 0 <= l < NUM_LEVELS :: LevelIs(v[l], Total(EditsOf(records), l))
    requires r.logNumber.Some? && r.prevLogNumber.Some? && r.nextFile.Some? && r.lastSequence.Some?
    requires r.logNumber.value < r.nextFile.value && AllBelow(EditsOf(records) + [r.edit], r.nextFile.value)
    ensures EditsOf(records + [r]) == EditsOf(records) + [r.edit]
    ensures SaysAll(records + [r], ApplyEdit(v, r.edit), r.logNumber.value, r.prevLogNumber.value)
  {
    var all := records + [r];
    assert all[..|records|] == records && all[..|all|] == all;
    OneMoreRecord(all, |records|);
    assert EditsOf(all) == EditsOf(records) + [r.edit];
    forall l | 0 <= l < NUM_LEVELS
      ensures LevelIs(ApplyEdit(v, r.edit)[l], Total(EditsOf(all), l))
    {
      EditKeepsLevel(v, EditsOf(records), r.edit, l);
    }
  }

  /**
   Recovery: one pass of one builder over the MANIFEST gives exactly what the calls to LogAndApply installed one by one,
   and a next file number above the recorded log number and every table that was recorded.
   */
  method ReplayManifest(records: seq<Record>, ghost vs: VersionLog) returns (r: Option<Recovered>)
    requires vs.Valid() && vs.begun && records == vs.manifest && |records| > 1
    ensures r.Some? && r.value.version == vs.current
    ensures r.value.logNumber == vs.logNumber && r.value.prevLogNumber == vs.prevLogNumber
    ensures Some(r.value.lastSequence) == Latest(LastSequences(records))
    ensures r.value.logNumber < r.value.nextFile && AllBelow(EditsOf(records), r.value.nextFile)
  {
    r := Recover(records);
    forall l | 0 <= l < NUM_LEVELS
      ensures r.value.version[l] == vs.current[l]
    {
      TotalsSave(records, vs.current[l], l);
    }
  }

  /** The logs that recovery replays. */
  predicate IsReplayed(r: Recovered, log: nat) {
    log >= r.logNumber || log == r.prevLogNumber
  }

  /** NewFileNumber for each table that replaying a log writes. */
  method NumberTables(first: nat, count: nat) returns (next: nat, ghost numbers: seq<nat>)
    ensures next == first + count
    ensures |numbers| == count && forall k | 0 <= k < count :: numbers[k] == first + k
  {
    next, numbers := first, [];
    for k := 0 to count
      invariant next == first + k && |numbers| == k && forall j | 0 <= j < k :: numbers[j] == first + j
    {
      numbers := numbers + [next];
      next := next + 1;
    }
  }

  /**
   The numbers that the tables of each log get: as many as it has tables, all different, none used in the MANIFEST, and
   above every log that was replayed before and every table written for it.
   */
  ghost predicate GivenOk(r: Recovered, logs: seq<nat>, tables: seq<nat>, given: seq<seq<nat>>, next: nat) {
    && |given| <= |logs| == |tables|
    && (forall i | 0 <= i < |given| :: |given[i]| == if IsReplayed(r, logs[i]) then tables[i] else 0)
    && (forall i, k | 0 <= i < |given| && 0 <= k < |given[i]| :: r.nextFile <= given[i][k] < next)
    && (forall i, k, l | 0 <= i < |given| && 0 <= k < l < |given[i]| :: given[i][k] < given[i][l])
    && (forall i, j, k, l | 0 <= i < j < |given| && 0 <= k < |given[i]| && 0 <= l < |given[j]| ::
          given[i][k] < given[j][l])
    && (forall i, j, l | 0 <= i < j < |given| && IsReplayed(r, logs[i]) && 0 <= l < |given[j]| ::
          logs[i] < given[j][l])
  }

  /** Numbers from first on for the tables of one more log. */
  lemma OneMoreLog(r: Recovered, logs: seq<nat>, tables: seq<nat>, given: seq<seq<nat>>, first: nat,
                   numbers: seq<nat>, next: nat)
    requires GivenOk(r, logs, tables, given, first) && |given| < |logs| && r.nextFile <= first
    requires forall i | 0 <= i < |given| && IsReplayed(r, logs[i]) :: logs[i] < first
    requires |numbers| == (if IsReplayed(r, logs[|given|]) then tables[|given|] else 0) && first + |numbers| <= next
    requires forall k | 0 <= k < |numbers| :: numbers[k] == first + k
    ensures GivenOk(r, logs, tables, given + [numbers], next)
  {
  }

  /**
   DBImpl::Recover's pass over the log files found on disk: replaying a log writes its tables under new numbers, and
   the log's own number is then marked as used. The counter ends above all of them, and no higher than it takes.
   */
  method MarkLogs(r: Recovered, logs: seq<nat>, tables: seq<nat>) returns (next: nat, ghost given: seq<seq<nat>>)
    requires |tables| == |logs| && r.logNumber < r.nextFile
    ensures |given| == |logs| && GivenOk(r, logs, tables, given, next)
    ensures r.nextFile <= next && forall l | l in logs :: l < next
    ensures next == r.nextFile || next - 1 in logs || exists i :: 0 <= i < |given| && next - 1 in given[i]
  {
    next, given := r.nextFile, [];
    for i := 0 to |logs|
      invariant |given| == i && GivenOk(r, logs, tables, given, next)
      invariant r.nextFile <= next && forall j | 0 <= j < i :: logs[j] < next
      invariant next == r.nextFile || next - 1 in logs || exists j :: 0 <= j < i && next - 1 in given[j]
    {
      ghost var first := next;
      ghost var numbers: seq<nat> := [];
      if logs[i] >= r.logNumber || logs[i] == r.prevLogNumber {
        next, numbers := NumberTables(next, tables[i]);
        assert |numbers| > 0 ==> numbers[|numbers| - 1] == next - 1;
        if next <= logs[i] {
          next := logs[i] + 1;
        }
      }
      OneMoreLog(r, logs, tables, given, first, numbers, next);
      given := given + [numbers];
      assert given[i] == numbers;
    }
  }

  /** None of these numbers is that of a table that was ever recorded. */
  ghost predicate NewToManifest(edits: seq<VersionEdit>, given: seq<seq<nat>>) {
    forall i, k | 0 <= i < |given| && 0 <= k < |given[i]| :: IsNew(edits, given[i][k])
  }

  /**
   Opening the database again: the version as it was installed, tables written under numbers that no table had before,
   and in the end a next file number above every table that the MANIFEST ever named, every table that recovery has
   written, and every log file there is, recorded or not.
   */
  method RecoverNumbers(records: seq<Record>, ghost vs: VersionLog, logs: seq<nat>, tables: seq<nat>)
    returns (r: Option<Recovered>, next: nat, ghost given: seq<seq<nat>>)
    requires vs.Valid() && vs.begun && records == vs.manifest && |records| > 1 && |tables| == |logs|
    ensures r.Some? && r.value.version == vs.current && r.value.logNumber == vs.logNumber
    ensures vs.logNumber < next && AllBelow(EditsOf(records), next) && forall l | l in logs :: l < next
    ensures |given| == |logs| && GivenOk(r.value, logs, tables, given, next) && NewToManifest(EditsOf(records), given)
  {
    r := ReplayManifest(records, vs);
    next, given := MarkLogs(r.value, logs, tables);
    forall i, k | 0 <= i < |given| && 0 <= k < |given[i]|
      ensures IsNew(EditsOf(records), given[i][k])
    {
      assert r.value.nextFile <= given[i][k];
    }
  }

  lemma TotalsSave(records: seq<Record>, files: seq<File>, l: nat)
    requires AddsOnce(EditsOf(records)) && l < NUM_LEVELS && LevelIs(files, Total(EditsOf(records), l))
    ensures SaveLevel([], Total(EditsOf(records), l).deleted, Total(EditsOf(records), l).added) == files
  {
    var t := Total(EditsOf(records), l);
    TotalMeans(EditsOf(records), l);
    SaveLevelMeans([], t.deleted, t.added);
    SortedIsUnique(SaveLevel([], t.deleted, t.added), files);
  }

  // ---------------------------------------------------------------- why numbers are never added back

  /** What flushes, moves and compactions do: they add files whose numbers are new, or move files one level down. */
  ghost predicate MovesDown(edits: seq<VersionEdit>, v: Version, e: VersionEdit) {
    && AddedDistinct(e.added)
    && forall a | a in e.added :: a.0 < NUM_LEVELS && (IsNew(edits, a.1.number) || IsMoved(v, e, a))
  }

  /** NewFileNumber never gives out a number twice. */
  ghost predicate IsNew(edits: seq<VersionEdit>, number: nat) {
    forall l | 0 <= l < NUM_LEVELS :: number !in EverAdded(edits, l)
  }

  ghost predicate IsMoved(v: Version, e: VersionEdit, a: (nat, File)) {
    0 < a.0 < NUM_LEVELS && a.1 in v[a.0 - 1] && (a.0 - 1, a.1.number) in e.deleted
  }

  /** Every file was added where it is, and never at a deeper level. */
  ghost predicate FromAbove(edits: seq<VersionEdit>, v: Version) {
    forall l, f | 0 <= l < NUM_LEVELS && f in v[l] :: StandsAt(edits, l, f.number)
  }

  ghost predicate StandsAt(edits: seq<VersionEdit>, l: nat, number: nat) {
    && number in EverAdded(edits, l)
    && forall m | l < m < NUM_LEVELS :: number !in EverAdded(edits, m)
  }

  /** Different places hold different numbers. */
  ghost predicate PlacesDiffer(v: Version) {
    forall l, f, m, g | 0 <= l < NUM_LEVELS && 0 <= m < NUM_LEVELS && f in v[l] && g in v[m] && f.number == g.number ::
      l == m && f == g
  }

  lemma OtherPairOtherNumber(added: seq<(nat, File)>, a: (nat, File), b: (nat, File))
    requires AddedDistinct(added) && a in added && b in added && a.1.number == b.1.number
    ensures a == b
  {
    var i :| 0 <= i < |added| && added[i] == a;
    var j :| 0 <= j < |added| && added[j] == b;
    assert !(i < j) && !(j < i);
  }

  /** Such an edit adds only numbers that are new to their level. */
  lemma MovingDownAddsOnlyNew(edits: seq<VersionEdit>, v: Version, e: VersionEdit)
    requires FromAbove(edits, v) && MovesDown(edits, v, e)
    ensures AddsOnlyNew(edits, e)
  {
    forall l | 0 <= l < NUM_LEVELS
      ensures AddsNew(edits, e, l)
    {
      forall a | a in e.added && a.0 == l
        ensures a.1.number !in EverAdded(edits, l)
      {
        if !IsNew(edits, a.1.number) {
          assert StandsAt(edits, l - 1, a.1.number);
        }
      }
    }
  }

  /** What level l holds after an edit: what was there and is not deleted, and what is added. */
  ghost predicate AfterEdit(v: Version, e: VersionEdit, l: nat, f: File)
    requires l < NUM_LEVELS
  {
    (f in v[l] && (l, f.number) !in e.deleted) || (l, f) in e.added
  }

  lemma EditLeaves(edits: seq<VersionEdit>, v: Version, e: VersionEdit, l: nat)
    requires FromAbove(edits, v) && MovesDown(edits, v, e) && l < NUM_LEVELS && SortedBySmallest(v[l])
    ensures SortedBySmallest(ApplyEdit(v, e)[l]) && forall f :: f in ApplyEdit(v, e)[l] <==> AfterEdit(v, e, l, f)
  {
    MovingDownAddsOnlyNew(edits, v, e);
    assert AddsNew(edits, e, l);
    forall f, a | f in v[l] && a in e.added && a.0 == l
      ensures f.number != a.1.number
    {
      assert StandsAt(edits, l, f.number) && a.1.number in NumbersAt(e.added, l);
    }
    ApplyEditMeans(v, e, l);
  }

  /** A file that such an edit leaves or puts at a level stands there afterwards. */
  lemma FileStands(edits: seq<VersionEdit>, v: Version, e: VersionEdit, l: nat, f: File)
    requires FromAbove(edits, v) && MovesDown(edits, v, e) && PlacesDiffer(v) && l < NUM_LEVELS && AfterEdit(v, e, l, f)
    ensures StandsAt(edits + [e], l, f.number)
  {
    assert (edits + [e])[..|edits|] == edits;
    forall m | l < m < NUM_LEVELS
      ensures f.number !in EverAdded(edits, m)
    {
      if f in v[l] {
        assert StandsAt(edits, l, f.number);
      } else if IsNew(edits, f.number) {
      } else {
        assert StandsAt(edits, l - 1, f.number);
      }
    }
    forall a | a in e.added && a.1.number == f.number
      ensures a.0 <= l
    {
      AddedOnce(edits, v, e, l, f, a);
    }
  }

  /** What an edit adds bears the number of nothing else that the edit leaves. */
  lemma AddedOnce(edits: seq<VersionEdit>, v: Version, e: VersionEdit, l: nat, f: File, a: (nat, File))
    requires FromAbove(edits, v) && MovesDown(edits, v, e) && PlacesDiffer(v) && l < NUM_LEVELS && AfterEdit(v, e, l, f)
    requires a in e.added && a.1.number == f.number
    ensures a == (l, f)
  {
    assert f in v[l] ==> StandsAt(edits, l, f.number);
    if (l, f) in e.added {
      OtherPairOtherNumber(e.added, a, (l, f));
    }
  }

  /** Such an edit keeps every file standing where it was added, under a number of its own. */
  lemma MovingDownKeeps(edits: seq<VersionEdit>, v: Version, e: VersionEdit)
    requires FromAbove(edits, v) && MovesDown(edits, v, e) && PlacesDiffer(v)
    requires forall l | 0 <= l < NUM_LEVELS :: SortedBySmallest(v[l])
    ensures var after := ApplyEdit(v, e);
            && FromAbove(edits + [e], after) && PlacesDiffer(after)
            && forall l | 0 <= l < NUM_LEVELS :: SortedBySmallest(after[l])
  {
    var after := ApplyEdit(v, e);
    forall l | 0 <= l < NUM_LEVELS
      ensures SortedBySmallest(after[l]) && forall f :: f in after[l] <==> AfterEdit(v, e, l, f)
    {
      EditLeaves(edits, v, e, l);
    }
    forall l, f | 0 <= l < NUM_LEVELS && f in after[l]
      ensures StandsAt(edits + [e], l, f.number)
    {
      FileStands(edits, v, e, l, f);
    }
    forall l, f, m, g | 0 <= l < NUM_LEVELS && 0 <= m < NUM_LEVELS && f in after[l] && g in after[m]
      && f.number == g.number
      ensures l == m && f == g
    {
      if (l, f) in e.added {
        AddedOnce(edits, v, e, m, g, (l, f));
      } else if (m, g) in e.added {
        AddedOnce(edits, v, e, l, f, (m, g));
      }
    }
  }

  /** A MANIFEST's edits, beginning with the snapshot of the version it starts from. */
  ghost predicate IsEditRun(versions: seq<Version>, edits: seq<VersionEdit>) {
    && |versions| == |edits| > 0
    && edits[0] == Snapshot(versions[0])
    && DistinctNumbersIn(versions[0]) && (forall l | 0 <= l < NUM_LEVELS :: SortedBySmallest(versions[0][l]))
    && forall i {:trigger versions[i]} | 0 < i < |edits| ::
         MovesDown(edits[..i], versions[i - 1], edits[i]) && versions[i] == ApplyEdit(versions[i - 1], edits[i])
  }

  lemma NumbersOf(added: seq<(nat, File)>, v: Version)
    requires forall l: nat, f: File :: (l, f) in added <==> l < NUM_LEVELS && f in v[l]
    ensures forall l, n | 0 <= l < NUM_LEVELS :: n in NumbersAt(added, l) <==> exists f :: f in v[l] && f.number == n
  {
    forall l, n | 0 <= l < NUM_LEVELS
      ensures n in NumbersAt(added, l) <==> exists f :: f in v[l] && f.number == n
    {
      if f :| f in v[l] && f.number == n {
        assert (l, f) in added;
      }
    }
  }

  lemma {:induction false} AdditionsAreDistinct(v: Version, n: nat)
    requires PlacesDiffer(v) && n <= NUM_LEVELS && forall l | 0 <= l < NUM_LEVELS :: SortedBySmallest(v[l])
    ensures AddedDistinct(Additions(v, n))
  {
    if n > 0 {
      AdditionsAreDistinct(v, n - 1);
      var front: seq<(nat, File)>, last: seq<(nat, File)> := Additions(v, n - 1), LevelAdditions(v[n - 1], n - 1);
      forall i, j | 0 <= i < j < |front + last|
        ensures (front + last)[i].1.number != (front + last)[j].1.number
      {
        if j >= |front| {
          var g := v[n - 1][j - |front|];
          assert g in v[n - 1];
          if i < |front| {
            assert front[i] in front;
            AdditionsHold(v, n - 1, front[i].0, front[i].1);
          } else {
            var f := v[n - 1][i - |front|];
            assert f in v[n - 1] && BySmallest(f, g);
          }
        }
      }
    }
  }

  lemma DistinctPlaces(v: Version)
    requires DistinctNumbersIn(v)
    ensures PlacesDiffer(v)
  {
    forall l, f, m, g | 0 <= l < NUM_LEVELS && 0 <= m < NUM_LEVELS && f in v[l] && g in v[m] && f.number == g.number
      ensures l == m && f == g
    {
      AdditionsHold(v, NUM_LEVELS, l, f);
      AdditionsHold(v, NUM_LEVELS, m, g);
      OtherPairOtherNumber(Additions(v, NUM_LEVELS), (l, f), (m, g));
    }
  }

  lemma SnapshotStands(v: Version)
    requires PlacesDiffer(v)
    ensures FromAbove([Snapshot(v)], v)
  {
    var added := Additions(v, NUM_LEVELS);
    assert [Snapshot(v)][..0] == [];
    forall l: nat, f: File
      ensures (l, f) in added <==> l < NUM_LEVELS && f in v[l]
    {
      AdditionsHold(v, NUM_LEVELS, l, f);
    }
    NumbersOf(added, v);
    assert forall l | 0 <= l < NUM_LEVELS :: EverAdded([Snapshot(v)], l) == EverAdded([], l) + NumbersAt(added, l);
  }

  /** Files stand where they were added, in different places, each level in order. */
  ghost predicate Stands(edits: seq<VersionEdit>, v: Version) {
    FromAbove(edits, v) && PlacesDiffer(v) && forall l | 0 <= l < NUM_LEVELS :: SortedBySmallest(v[l])
  }

  lemma RunStarts(versions: seq<Version>, edits: seq<VersionEdit>)
    requires IsEditRun(versions, edits)
    ensures Stands(edits[..1], versions[0])
  {
    assert edits[..1] == [Snapshot(versions[0])];
    DistinctPlaces(versions[0]);
    SnapshotStands(versions[0]);
  }

  lemma StepStands(before: seq<VersionEdit>, v: Version, e: VersionEdit, edits: seq<VersionEdit>, after: Version)
    requires Stands(before, v) && MovesDown(before, v, e) && edits == before + [e] && after == ApplyEdit(v, e)
    ensures Stands(edits, after)
  {
    MovingDownKeeps(before, v, e);
  }

  lemma EditAt(versions: seq<Version>, edits: seq<VersionEdit>, i: nat)
    requires IsEditRun(versions, edits) && 0 < i < |edits|
    ensures MovesDown(edits[..i], versions[i - 1], edits[i]) && versions[i] == ApplyEdit(versions[i - 1], edits[i])
    ensures edits[..i + 1] == edits[..i] + [edits[i]]
  {
  }

  lemma {:induction false} RunStands(versions: seq<Version>, edits: seq<VersionEdit>, i: nat)
    requires IsEditRun(versions, edits) && i < |edits|
    ensures Stands(edits[..i + 1], versions[i])
  {
    if i == 0 {
      RunStarts(versions, edits);
    } else {
      RunStands(versions, edits, i - 1);
      EditAt(versions, edits, i);
      StepStands(edits[..i], versions[i - 1], edits[i], edits[..i + 1], versions[i]);
    }
  }

  /** In every run of such edits no number is ever added to a level twice: what LogAndApply asks for always holds. */
  lemma RunAddsOnlyNew(versions: seq<Version>, edits: seq<VersionEdit>, i: nat)
    requires IsEditRun(versions, edits) && 0 < i < |edits|
    ensures AddsOnlyNew(edits[..i], edits[i]) && DistinctNumbersIn(ApplyEdit(versions[i - 1], edits[i]))
  {
    RunStands(versions, edits, i - 1);
    RunStands(versions, edits, i);
    EditAt(versions, edits, i);
    MovingDownAddsOnlyNew(edits[..i], versions[i - 1], edits[i]);
    AdditionsAreDistinct(versions[i], NUM_LEVELS);
  }

  // ---------------------------------------------------------------- the edits that are made are of this kind

  /** A flush adds one file, under a new number. */
  lemma FlushMovesDown(edits: seq<VersionEdit>, v: Version, level: nat, f: File)
    requires level < NUM_LEVELS && IsNew(edits, f.number)
    ensures MovesDown(edits, v, FlushEdit(level, f))
  {
  }

  /** A compaction adds its outputs, under new numbers. */
  lemma CompactionMovesDown(edits: seq<VersionEdit>, v: Version, c: Compaction, outputs: seq<File>)
    requires c.level + 1 < NUM_LEVELS && DistinctNumbers(outputs) && forall o | o in outputs :: IsNew(edits, o.number)
    ensures MovesDown(edits, v, CompactionEdit(c, outputs))
  {
    EditAdds(c, outputs);
    forall a | a in CompactionEdit(c, outputs).added
      ensures a.0 < NUM_LEVELS && IsNew(edits, a.1.number)
    {
      assert (a.0, a.1) == a;
    }
  }

  /** A trivial move takes one file from its level to the next. */
  lemma MoveMovesDown(edits: seq<VersionEdit>, v: Version, c: Compaction)
    requires c.level + 1 < NUM_LEVELS && |c.inputs0| == 1 && c.inputs0[0] in v[c.level]
    ensures MovesDown(edits, v, CompactionEdit(c, c.inputs0))
  {
    var f := c.inputs0[0];
    EditAdds(c, c.inputs0);
    assert f in c.inputs0 && (c.level, f.number) in CompactionEdit(c, c.inputs0).deleted;
    forall a | a in CompactionEdit(c, c.inputs0).added
      ensures IsMoved(v, CompactionEdit(c, c.inputs0), a)
    {
      assert (a.0, a.1) == a && a.1 in c.inputs0;
    }
  }
}
