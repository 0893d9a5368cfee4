/**
 The compaction that brings a deleted value back, reached from an empty database. Every step is one the code takes: each
 flush goes to the level that PickLevelForMemTableOutput gives, both compactions have the inputs that a manual
 CompactRange picks, and neither has a lone input that would be moved. The last one leaves out a file that
 SetupOtherInputs should have taken in.
 */
module Resurfacing {
  import opened Compacting
  import opened CompactionReads
  import opened Engine
  import opened Inputs
  import opened Keys
  import opened Reads
  import opened Rewrites
  import opened Selection
  import opened VersionBuilder
  import opened Versions
  import EngineWrites

  // ---------------------------------------------------------------- the run, from the empty database

  const NEW_ONE := [Operation(1.0, TypeValue, [])]
  const NEW_TWO := [Operation(2.0, TypeValue, [])]
  const LOSE_TWO := [Operation(2.0, TypeDeletion, []), Operation(1.0, TypeValue, [])]

  /** The first two memtables, as the files they are flushed to. */
  function First(): File { TableOf(0, [Put(1.0, 1)]) }

  function Whole(): File { TableOf(1, [Put(1.0, 4), Delete(2.0, 3), Put(2.0, 2)]) }

  /** What the two are rewritten to. The cut is where the first output reaches its size limit. */
  function Front(): File { TableOf(2, [Put(1.0, 4), Put(1.0, 1), Delete(2.0, 3)]) }

  function Back(): File { TableOf(3, [Put(2.0, 2)]) }

  /** The third memtable's file. */
  function Second(): File { TableOf(4, [Put(1.0, 5)]) }

  function Levels(one: seq<File>, two: seq<File>): Version {
    [[], one, two, [], [], [], []]
  }

  /** Manual compaction of level 1 while the snapshot is held: everything is kept, in two files. */
  function SplitStep(): Step {
    Compact(2, Compaction(1, [Whole()], [First()], []), Merged(), [Front(), Back()])
  }

  function Merged(): seq<Entry> {
    [Put(1.0, 4), Put(1.0, 1), Delete(2.0, 3), Put(2.0, 2)]
  }

  /** Manual compaction of level 1 after the snapshot was released. */
  function ResurfaceStep(): Step {
    Compact(5, Compaction(1, [Second()], [Front()], []), [Put(1.0, 5), Put(1.0, 4), Put(1.0, 1), Delete(2.0, 3)],
            [TableOf(5, [Put(1.0, 5)])])
  }

  /** Each switch, flush and compaction in a row is one call of DB::CompactRange. */
  function StepAt(n: nat): Step {
    match n
    case 0 => Write(NEW_ONE)
    case 1 => SwitchMemTable
    case 2 => FlushMemTable(2, Some(First()))
    case 3 => Write(NEW_TWO)
    case 4 => TakeSnapshot
    case 5 => Write(LOSE_TWO)
    case 6 => SwitchMemTable
    case 7 => FlushMemTable(1, Some(Whole()))
    case 8 => SplitStep()
    case 9 => ReleaseSnapshot(0)
    case 10 => Write(NEW_ONE)
    case 11 => SwitchMemTable
    case 12 => FlushMemTable(1, Some(Second()))
    case _ => ResurfaceStep()
  }

  /** What is in the memtable before each of the three flushes. */
  function Table(k: nat): iset<Entry> {
    if k == 0 then iset{Put(1.0, 1)}
    else if k == 1 then iset{Put(2.0, 2), Delete(2.0, 3), Put(1.0, 4)}
    else iset{Put(1.0, 5)}
  }

  function Written(n: nat): iset<Entry> {
    if n == 0 then iset{}
    else if n == 1 then iset{Put(1.0, 1)}
    else if n == 2 then iset{Put(1.0, 1), Put(2.0, 2)}
    else if n == 3 then iset{Put(1.0, 1), Put(2.0, 2), Delete(2.0, 3), Put(1.0, 4)}
    else iset{Put(1.0, 1), Put(2.0, 2), Delete(2.0, 3), Put(1.0, 4), Put(1.0, 5)}
  }

  function Overlaid(): Version { Levels([Whole()], [First()]) }

  function Both(): Version { Levels([Second()], [Front(), Back()]) }

  function StateAt(n: nat): State {
    match n
    case 0 => State(iset{}, None, Levels([], []), 0, [], 0, Written(0))
    case 1 => State(Table(0), None, Levels([], []), 1, [], 0, Written(1))
    case 2 => State(iset{}, Some(Table(0)), Levels([], []), 1, [], 0, Written(1))
    case 3 => State(iset{}, None, Levels([], [First()]), 1, [], 1, Written(1))
    case 4 => State(iset{Put(2.0, 2)}, None, Levels([], [First()]), 2, [], 1, Written(2))
    case 5 => State(iset{Put(2.0, 2)}, None, Levels([], [First()]), 2, [2], 1, Written(2))
    case 6 => State(Table(1), None, Levels([], [First()]), 4, [2], 1, Written(3))
    case 7 => State(iset{}, Some(Table(1)), Levels([], [First()]), 4, [2], 1, Written(3))
    case 8 => State(iset{}, None, Overlaid(), 4, [2], 2, Written(3))
    case 9 => State(iset{}, None, Levels([], [Front(), Back()]), 4, [2], 4, Written(3))
    case 10 => State(iset{}, None, Levels([], [Front(), Back()]), 4, [], 4, Written(3))
    case 11 => State(Table(2), None, Levels([], [Front(), Back()]), 5, [], 4, Written(4))
    case 12 => State(iset{}, Some(Table(2)), Levels([], [Front(), Back()]), 5, [], 4, Written(4))
    case 13 => State(iset{}, None, Both(), 5, [], 5, Written(4))
    case _ => State(iset{}, None, Resurfaced(), 5, [], 6, Written(4))
  }

  function Resurfaced(): Version {
    ApplyEdit(Both(), CompactionEdit(ResurfaceStep().compaction, ResurfaceStep().outputs))
  }

  function TheStates(): (states: seq<State>)
    ensures |states| == 15 && forall n | 0 <= n < 15 :: states[n] == StateAt(n)
  {
    seq(15, n requires 0 <= n => StateAt(n))
  }

  function TheSteps(): (steps: seq<Step>)
    ensures |steps| == 14 && forall n | 0 <= n < 14 :: steps[n] == StepAt(n)
  {
    seq(14, n requires 0 <= n => StepAt(n))
  }

  ghost predicate IsStep(n: nat) {
    Next(StateAt(n), StepAt(n), StateAt(n + 1))
  }

  // ---------------------------------------------------------------- each step is one the engine takes

  lemma OneWrite(u: UserKey, kind: ValueType, first: nat)
    requires first < MAX_SEQUENCE
    ensures Elements(BatchEntries([Operation(u, kind, [])], first)) == iset{Entry(InternalKey(u, first, kind), [])}
  {
    var es := BatchEntries([Operation(u, kind, [])], first);
    assert es == [Entry(InternalKey(u, first, kind), [])];
  }

  /** A value is written into an empty memtable. */
  lemma WriteIsStep(s: State, u: UserKey, s': State)
    requires s.mem == iset{} && s.lastSequence + 1 < MAX_SEQUENCE
    requires var es := iset{Put(u, s.lastSequence + 1)};
             s' == s.(mem := es, lastSequence := s.lastSequence + 1, history := s.history + es)
    ensures Next(s, Write([Operation(u, TypeValue, [])]), s')
  {
    OneWrite(u, TypeValue, s.lastSequence + 1);
    assert s.mem + iset{Put(u, s.lastSequence + 1)} == iset{Put(u, s.lastSequence + 1)};
  }

  lemma WritesAreSteps(n: nat)
    requires n == 0 || n == 3 || n == 10
    ensures IsStep(n)
  {
    assert Written(1) == Written(0) + iset{Put(1.0, 1)};
    assert Written(2) == Written(1) + iset{Put(2.0, 2)};
    assert Written(4) == Written(3) + iset{Put(1.0, 5)};
    WriteIsStep(StateAt(n), if n == 3 then 2.0 else 1.0, StateAt(n + 1));
  }

  lemma DeletionIsStep()
    ensures IsStep(5)
  {
    var es := BatchEntries(LOSE_TWO, 3);
    assert es == [Delete(2.0, 3), Put(1.0, 4)];
    assert Elements(es) == iset{Delete(2.0, 3), Put(1.0, 4)};
    assert Written(3) == Written(2) + Elements(es);
    assert Table(1) == iset{Put(2.0, 2)} + Elements(es);
  }

  /** A version edit, level by level. */
  lemma EditGives(v: Version, e: VersionEdit, w: Version)
    requires AddedDistinct(e.added) && forall l | 0 <= l < NUM_LEVELS ::
               SortedBySmallest(v[l]) && SortedBySmallest(w[l])
    requires forall l, f, a | 0 <= l < NUM_LEVELS && f in v[l] && a in e.added && a.0 == l :: f.number != a.1.number
    requires forall l: nat, f: File | l < NUM_LEVELS ::
               f in w[l] <==> (f in v[l] && (l, f.number) !in e.deleted) || (l, f) in e.added
    ensures ApplyEdit(v, e) == w
  {
    forall l | 0 <= l < NUM_LEVELS
      ensures ApplyEdit(v, e)[l] == w[l]
    {
      ApplyEditMeans(v, e, l);
      SortedIsUnique(ApplyEdit(v, e)[l], w[l]);
    }
  }

  lemma LevelsSorted(one: seq<File>, two: seq<File>)
    requires SortedBySmallest(one) && SortedBySmallest(two)
    ensures forall l | 0 <= l < NUM_LEVELS :: SortedBySmallest(Levels(one, two)[l])
  {
  }

  /** The files here are all of size 1. */
  lemma {:induction false} SizeIsNumber(files: seq<File>)
    requires forall f | f in files :: f.size == 1
    ensures TotalFileSize(files) == |files|
  {
    if files != [] {
      assert files[0] in files;
      SizeIsNumber(files[1..]);
    }
  }

  /** Into the empty database, a file is flushed to level 2. */
  lemma PlacedAtTwo(f: File, maxFileSize: nat)
    ensures IsPlacement(Levels([], []), 2, f.smallest.user, f.largest.user, maxFileSize)
  {
    var v := Levels([], []);
    forall l | 0 <= l < 2
      ensures MayGoDeeper(v, l, f.smallest.user, f.largest.user, maxFileSize)
    {
      assert v[l + 1] == [] && v[l + 2] == [];
    }
    assert v[0] == [];
  }

  /** A file that meets one of at most two files of level 2, and nothing above, is flushed to level 1. */
  lemma PlacedAtOne(f: File, two: seq<File>, g: File, maxFileSize: nat)
    requires g in two && |two| <= 2 && (forall h | h in two :: h.size == 1) && maxFileSize > 0
    requires Overlaps(g, Some(f.smallest.user), Some(f.largest.user))
    ensures IsPlacement(Levels([], two), 1, f.smallest.user, f.largest.user, maxFileSize)
  {
    var v := Levels([], two);
    assert v[0] == [] && v[1] == [] && v[2] == two;
    var met := Overlapping(v[2], Some(f.smallest.user), Some(f.largest.user));
    SizeIsNumber(met);
    assert MayGoDeeper(v, 0, f.smallest.user, f.largest.user, maxFileSize);
    assert LevelMeetsRange(v, 2, f.smallest.user, f.largest.user);
  }

  /** Where the three flushes go is where PickLevelForMemTableOutput sends them. */
  lemma FlushesArePlaced(maxFileSize: nat)
    requires maxFileSize > 0
    ensures IsFlushPlaced(2, maxFileSize) && IsFlushPlaced(7, maxFileSize) && IsFlushPlaced(12, maxFileSize)
  {
    PlacedAtTwo(First(), maxFileSize);
    PlacedAtOne(Whole(), [First()], First(), maxFileSize);
    PlacedAtOne(Second(), [Front(), Back()], Front(), maxFileSize);
  }

  /** Step n flushes a file to the one level that PickLevelForMemTableOutput may give for it. */
  ghost predicate IsFlushPlaced(n: nat, maxFileSize: nat) {
    && StepAt(n).FlushMemTable? && StepAt(n).file.Some?
    && var f := StepAt(n).file.value;
       IsPlacement(StateAt(n).version, StepAt(n).level, f.smallest.user, f.largest.user, maxFileSize)
  }

  lemma FlushGivesOne(f: File, two: seq<File>)
    requires SortedBySmallest(two)
    ensures ApplyEdit(Levels([], two), FlushEdit(1, f)) == Levels([f], two)
  {
    LevelsSorted([], two);
    LevelsSorted([f], two);
    EditGives(Levels([], two), FlushEdit(1, f), Levels([f], two));
  }

  lemma FlushGivesTwo(f: File)
    ensures ApplyEdit(Levels([], []), FlushEdit(2, f)) == Levels([], [f])
  {
    LevelsSorted([], []);
    LevelsSorted([], [f]);
    EditGives(Levels([], []), FlushEdit(2, f), Levels([], [f]));
  }

  lemma FlushIsStep(s: State, level: nat, f: File, s': State)
    requires s.imm == Some(Elements(f.entries)) && FileOk(f) && f.number == s.nextFile
    requires IsPlacement(s.version, level, f.smallest.user, f.largest.user, 1)
    requires s' == s.(imm := None, nextFile := s.nextFile + 1, version := ApplyEdit(s.version, FlushEdit(level, f)))
    ensures Next(s, FlushMemTable(level, Some(f)), s')
  {
    PlacementIsOk(s.version, level, f, 1);
  }

  lemma FlushedFiles()
    ensures FileOk(First()) && Elements(First().entries) == Table(0)
    ensures FileOk(Whole()) && Elements(Whole().entries) == Table(1)
    ensures FileOk(Second()) && Elements(Second().entries) == Table(2)
  {
  }

  lemma FirstFlushIsStep()
    ensures IsStep(2)
  {
    PlacedAtTwo(First(), 1);
    FlushGivesTwo(First());
    FlushedFiles();
    FlushIsStep(StateAt(2), 2, First(), StateAt(3));
  }

  lemma SecondFlushIsStep()
    ensures IsStep(7)
  {
    PlacedAtOne(Whole(), [First()], First(), 1);
    FlushGivesOne(Whole(), [First()]);
    FlushedFiles();
    FlushIsStep(StateAt(7), 1, Whole(), StateAt(8));
  }

  lemma ThirdFlushIsStep()
    ensures IsStep(12)
  {
    PlacedAtOne(Second(), [Front(), Back()], Front(), 1);
    FrontIsFirst();
    FlushGivesOne(Second(), [Front(), Back()]);
    FlushedFiles();
    FlushIsStep(StateAt(12), 1, Second(), StateAt(13));
  }

  lemma FrontIsFirst()
    ensures FileOk(Front()) && FileOk(Back()) && SortedBySmallest([Front(), Back()])
  {
    assert BySmallest(Front(), Back());
  }

  // ---------------------------------------------------------------- the first compaction

  /** With the snapshot live nothing is dropped: what is hidden, the snapshot sees, and the deletion is too new. */
  lemma SplitKeepsAll()
    ensures Kept(Merged(), 4, Overlaid(), 1, 2) == Merged()
  {
    var es, v := Merged(), Overlaid();
    assert !Dropped(es, 0, v, 1, 2) && !Dropped(es, 1, v, 1, 2) && !Dropped(es, 2, v, 1, 2) && !Dropped(es, 3, v, 1, 2);
    assert Kept(es, 1, v, 1, 2) == Kept(es, 0, v, 1, 2) + [es[0]];
    assert Kept(es, 2, v, 1, 2) == Kept(es, 1, v, 1, 2) + [es[1]];
    assert Kept(es, 3, v, 1, 2) == Kept(es, 2, v, 1, 2) + [es[2]];
    assert Kept(es, 4, v, 1, 2) == Kept(es, 3, v, 1, 2) + [es[3]];
  }

  lemma FlattenTwo(f: File, g: File)
    ensures Flatten([f, g]) == f.entries + g.entries
  {
    assert [f, g][..1] == [f] && [f][..0] == [];
    assert Flatten([]) == [] && Flatten([f]) == f.entries;
  }

  lemma OneFileContents(f: File)
    ensures Contents([f]) == Elements(f.entries)
  {
    assert f in [f];
  }

  lemma WholeIsInput()
    ensures InputsOk(Overlaid(), SplitStep().compaction)
    ensures InputEntries(SplitStep().compaction) == Elements(Merged())
  {
    var f, g := Whole(), First();
    assert f in [f] && g in [g] && Meets(g, f, f);
    OneFileContents(f);
    OneFileContents(g);
  }

  lemma SplitResult()
    ensures CompactionResult(Overlaid(), SplitStep().compaction, 2, Merged(), [Front(), Back()], 2)
  {
    SplitKeepsAll();
    FrontIsFirst();
    FlattenTwo(Front(), Back());
    assert Front().entries + Back().entries == Merged();
    WholeIsInput();
  }

  lemma SplitGives()
    ensures ApplyEdit(Overlaid(), CompactionEdit(SplitStep().compaction, [Front(), Back()]))
         == Levels([], [Front(), Back()])
  {
    var c := SplitStep().compaction;
    var e := CompactionEdit(c, [Front(), Back()]);
    FrontIsFirst();
    LevelsSorted([Whole()], [First()]);
    LevelsSorted([], [Front(), Back()]);
    assert e.added == [(2, Front()), (2, Back())];
    assert Whole() in c.inputs0 && First() in c.inputs1;
    assert (1, 1) in e.deleted && (2, 0) in e.deleted && forall d | d in e.deleted :: d == (1, 1) || d == (2, 0);
    EditGives(Overlaid(), e, Levels([], [Front(), Back()]));
  }

  lemma SplitIsNext(s: State, s': State)
    requires s.version == Overlaid() && s.nextFile == 2 && OldestSnapshot(s) == 2
    requires s' == s.(version := Levels([], [Front(), Back()]), nextFile := 4)
    ensures Next(s, SplitStep(), s')
  {
    SplitResult();
    SplitGives();
    WholeIsInput();
    CompactIsStep(s, 2, SplitStep().compaction, Merged(), [Front(), Back()], s'.version, s');
  }

  lemma SplitIsStep()
    ensures IsStep(8)
  {
    SplitIsNext(StateAt(8), StateAt(9));
  }

  // ---------------------------------------------------------------- the second compaction

  lemma ResurfaceIsNext(s: State, c: Compaction, input: seq<Entry>, outputs: seq<File>, s': State)
    requires s.version == WitnessVersion() && s.nextFile == 5 && OldestSnapshot(s) == 5
    requires c == Compaction(1, s.version[1], Overlapping(s.version[2], Some(1.0), Some(1.0)), [])
    requires input == [Put(1.0, 5), Put(1.0, 4), Put(1.0, 1), Delete(2.0, 3)] && outputs == [TableOf(5, [Put(1.0, 5)])]
    requires s' == s.(version := ApplyEdit(s.version, CompactionEdit(c, outputs)), nextFile := 6)
    ensures Next(s, Compact(5, c, input, outputs), s') && Read(ContentsFrom(s'.version, 0), 2.0, 5) == Found([])
  {
    WitnessCompaction(s.version, c, input, outputs, s'.version);
    CompactIsStep(s, 5, c, input, outputs, s'.version, s');
  }

  lemma CompactIsStep(s: State, snap: SequenceNumber, c: Compaction, input: seq<Entry>, outputs: seq<File>, v: Version,
                      s': State)
    requires snap <= OldestSnapshot(s) && InputsOk(s.version, c)
    requires CompactionResult(s.version, c, snap, input, outputs, s.nextFile)
    requires v == ApplyEdit(s.version, CompactionEdit(c, outputs))
    requires s' == s.(version := v, nextFile := s.nextFile + |outputs|)
    ensures Next(s, Compact(snap, c, input, outputs), s')
  {
  }

  /** The inputs that the overlap rules pick: the file with the deletion, not the one with the value. */
  lemma ResurfaceInputs()
    ensures Both() == WitnessVersion() && Both()[1] == [Second()]
    ensures Overlapping(Both()[2], Some(1.0), Some(1.0)) == [Front()]
  {
    WitnessOverlap(Front(), Back());
  }

  lemma ResurfaceIsStep()
    ensures IsStep(13) && Read(ContentsFrom(Resurfaced(), 0), 2.0, 5) == Found([])
  {
    ResurfaceInputs();
    var step := ResurfaceStep();
    ResurfaceIsNext(StateAt(13), step.compaction, step.input, step.outputs, StateAt(14));
  }

  // ---------------------------------------------------------------- the whole run

  lemma HistoryReads()
    ensures Read(Written(4), 2.0, 5) == NotFound
  {
    ReadIs(Written(4), 2.0, 5, Delete(2.0, 3));
  }

  lemma TheRun()
    ensures IsRun(TheStates(), TheSteps())
  {
    var states, steps := TheStates(), TheSteps();
    forall i | 0 <= i < 14
      ensures Next(states[i], steps[i], states[i + 1])
    {
      AllAreSteps(i);
    }
    EmptyIsInit();
  }

  lemma AllAsTheCodeDoes(n: nat, maxFileSize: nat)
    requires n < 14 && maxFileSize > 0
    ensures AsTheCodeDoes(n, maxFileSize)
  {
    if n == 2 || n == 7 || n == 12 {
      FlushesArePlaced(maxFileSize);
    }
  }

  /**
   Step n is as the code takes it: flushed where it is placed, or compacted at the oldest snapshot and not to be moved.
   */
  ghost predicate AsTheCodeDoes(n: nat, maxFileSize: nat) {
    && (StepAt(n).FlushMemTable? ==> IsFlushPlaced(n, maxFileSize))
    && !StepAt(n).TrivialMove?
    && (StepAt(n).Compact? ==>
          StepAt(n).snap == OldestSnapshot(StateAt(n)) && !IsTrivialMove(StepAt(n).compaction, maxFileSize))
  }

  lemma LastOperationDeletes()
    requires IsRun(TheStates(), TheSteps())
    requires Read(StateAt(14).history, 2.0, 5) == NotFound && StateAt(14).lastSequence == 5
    ensures EngineWrites.LastOn(EngineWrites.Written(TheSteps()), 2.0) == NotFound
  {
    var steps := TheSteps();
    EngineWrites.HistoryReads(TheStates(), steps, 14, 2.0, 5);
    assert steps[..14] == steps;
    var all := EngineWrites.Written(steps);
    assert all[..5] == all;
  }

  /**
   From an empty database: a key is written and flushed to level 2; a value of another key is written and held by a
   snapshot, deleted, flushed to level 1, and split from its deletion by one compaction; the snapshot goes, and the next
   compaction drops the deletion and not the value. A read of the key then finds it, though the last thing written to it
   is the deletion. Every step is as the code takes it, for any size limit.
   */
  lemma DeletedValueComesBackInARun(maxFileSize: nat)
    requires maxFileSize > 0
    ensures IsRun(TheStates(), TheSteps()) && forall n | 0 <= n < 14 :: AsTheCodeDoes(n, maxFileSize)
    ensures Read(StateAt(14).history, 2.0, 5) == NotFound && StateAt(14).lastSequence == 5
    ensures EngineWrites.LastOn(EngineWrites.Written(TheSteps()), 2.0) == NotFound
    ensures Read(Stored(StateAt(14)), 2.0, 5) == Found([])
  {
    TheRun();
    forall n | 0 <= n < 14
      ensures AsTheCodeDoes(n, maxFileSize)
    {
      AllAsTheCodeDoes(n, maxFileSize);
    }
    ResurfaceIsStep();
    HistoryReads();
    LastOperationDeletes();
    assert Stored(StateAt(14)) == ContentsFrom(Resurfaced(), 0);
  }

  /**
   Both compactions have exactly the inputs that the code picks when asked to compact all of level 1, whatever the size
   limit.
   */
  method PickInputs(n: nat, maxFileSize: nat) returns (c: Compaction)
    requires n == 8 || n == 13
    ensures c.level == 1 && c.grandparents == []
    ensures forall f :: f in c.inputs0 <==> f in StepAt(n).compaction.inputs0
    ensures forall f :: f in c.inputs1 <==> f in StepAt(n).compaction.inputs1
  {
    VersionsAreOk();
    if n == 8 {
      c := PickAll(Overlaid(), Whole(), First(), First(), maxFileSize);
    } else {
      c := PickAll(Both(), Second(), Front(), Back(), maxFileSize);
    }
  }

  lemma VersionsAreOk()
    ensures VersionOk(Overlaid()) && VersionOk(Both())
  {
    VersionIsOk(8, Overlaid());
    VersionIsOk(13, Both());
  }

  lemma VersionIsOk(n: nat, v: Version)
    requires n < 15 && v == StateAt(n).version
    ensures VersionOk(v)
  {
    TheRun();
    var states, steps := TheStates(), TheSteps();
    RunKeepsStructure(states, steps, n);
    StructuralVersion(states[n]);
  }

  lemma StructuralVersion(s: State)
    requires Structural(s)
    ensures VersionOk(s.version)
  {
  }

  /** Compacting all of a level 1 that has one file, over at most two files of level 2. */
  method PickAll(v: Version, one: File, ghost met: File, ghost other: File, maxFileSize: nat) returns (c: Compaction)
    requires VersionOk(v) && v[1] == [one] && v[3] == [] && forall f :: f in v[2] <==> f == met || f == other
    requires Meets(met, one, one) && (other == met || !Meets(other, one, one))
    ensures c.level == 1 && c.grandparents == []
    ensures (forall f :: f in c.inputs0 <==> f == one) && (forall f :: f in c.inputs1 <==> f == met)
  {
    var vs := new VersionSet(v, maxFileSize);
    var choice := vs.CompactRange(1, None, None);
    assert one in vs.current[1] && Overlaps(one, UserBound(None), UserBound(None));
    c := choice.value;
    OnlyInput(v, c, one);
    InputsBelow(v[2], c, one, met, other);
  }

  /** The one file of level 1 is the one input of level 1. */
  lemma OnlyInput(v: Version, c: Compaction, one: File)
    requires v[1] == [one] && v[3] == [] && c.level == 1 && InputsOk(v, c)
    requires GrandparentsOk(v, 1, c.inputs0 + c.inputs1, c.grandparents)
    ensures c.grandparents == [] && forall f :: f in c.inputs0 <==> f == one
  {
    assert c.inputs0[0] in c.inputs0;
    HasElement(c.grandparents);
  }

  /** Of two files of level 2, or one named twice, the input is the one that meets the input of level 1. */
  lemma InputsBelow(files: seq<File>, c: Compaction, one: File, met: File, other: File)
    requires Subset(c.inputs1, files) && Covered(files, c.inputs0, c.inputs1) && Touching(c.inputs0, c.inputs1)
    requires forall f :: f in files <==> f == met || f == other
    requires forall f :: f in c.inputs0 <==> f == one
    requires Meets(met, one, one) && (other == met || !Meets(other, one, one))
    ensures forall f :: f in c.inputs1 <==> f == met
  {
    forall f | f in c.inputs1
      ensures f == met
    {
      var g, h :| g in c.inputs0 && h in c.inputs0 && Meets(f, g, h);
    }
  }

  lemma EmptyIsInit()
    ensures Init(StateAt(0))
  {
    assert Levels([], []) == seq(NUM_LEVELS, _ => []);
  }

  lemma AllAreSteps(n: nat)
    requires n < 14
    ensures IsStep(n)
  {
    if n == 0 || n == 3 || n == 10 {
      WritesAreSteps(n);
    } else if n == 5 {
      DeletionIsStep();
    } else if n == 2 {
      FirstFlushIsStep();
    } else if n == 7 {
      SecondFlushIsStep();
    } else if n == 12 {
      ThirdFlushIsStep();
    } else if n == 8 {
      SplitIsStep();
    } else if n == 13 {
      ResurfaceIsStep();
    } else {
      OthersAreSteps(n);
    }
  }

  lemma OthersAreSteps(n: nat)
    requires n == 1 || n == 4 || n == 6 || n == 9 || n == 11
    ensures IsStep(n)
  {
    var snapshots: seq<SequenceNumber> := [2];
    assert snapshots[..0] + snapshots[1..] == [];
  }
}
