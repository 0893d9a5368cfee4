/**
 The storage engine as a state machine over its whole life: writes, memtable switches, flushes, trivial moves,
 compactions and snapshots. In every reachable state each readable snapshot reads exactly what was written.
 */
module Engine {
  import opened Keys
  import opened Reads
  import opened Versions
  import opened Inputs
  import opened Selection
  import opened Compacting
  import opened VersionBuilder
  import opened Rewrites
  import opened CompactionReads

  // ---------------------------------------------------------------- flushing a memtable

  /** Where a flush may go: wherever PickLevelForMemTableOutput puts it, and less deep. */
  ghost predicate PlacementOk(v: Version, level: nat, f: File) {
    && level <= MAX_MEM_COMPACT_LEVEL
    && (level > 0 ==> forall l | 0 <= l <= level :: !LevelMeetsRange(v, l, f.smallest.user, f.largest.user))
  }

  lemma PlacementIsOk(v: Version, level: nat, f: File, maxFileSize: nat)
    requires IsPlacement(v, level, f.smallest.user, f.largest.user, maxFileSize)
    ensures PlacementOk(v, level, f)
  {
    PlacementMeetsNothing(v, level, f.smallest.user, f.largest.user, maxFileSize);
  }

  lemma NotMeetingIsNewer(files: seq<File>, f: File, A: iset<Entry>)
    requires FilesOk(files) && FileOk(f) && A == Contents(files)
    requires forall g | g in files :: !Overlaps(g, Some(f.smallest.user), Some(f.largest.user))
    ensures NewerThan(A, Elements(f.entries))
  {
    forall a, b | a in A && b in Elements(f.entries) ensures a.key.user != b.key.user {
      var g :| g in files && a in g.entries;
      FileBounds(g, a);
      FileBounds(f, b);
    }
  }

  lemma FlushedLevel(v: Version, level: nat, f: File)
    requires VersionOk(v) && AllSorted(v) && FileOk(f) && NumbersBelow(v, f.number) && PlacementOk(v, level, f)
    requires NewerThan(Elements(f.entries), ContentsFrom(v, 0))
    ensures var after := ApplyEdit(v, FlushEdit(level, f))[level];
            LevelOk(after, level) && SortedBySmallest(after) && forall g :: g in after <==> g in v[level] || g == f
  {
    var after := ApplyEdit(v, FlushEdit(level, f))[level];
    assert LevelOk(v[level], level);
    ApplyEditMeans(v, FlushEdit(level, f), level);
    assert forall g | g in v[level] :: g.number != f.number;
    if level > 0 {
      assert !LevelMeetsRange(v, level, f.smallest.user, f.largest.user);
      FlushedUpperLevel(v[level], level, f, after);
    } else {
      FlushedLevelZero(v, f, after);
    }
  }

  lemma FlushedUpperLevel(files: seq<File>, level: nat, f: File, after: seq<File>)
    requires level > 0 && LevelOk(files, level) && FileOk(f) && SortedBySmallest(after)
    requires forall g | g in files :: g.number != f.number && !Overlaps(g, Some(f.smallest.user), Some(f.largest.user))
    requires forall g :: g in after <==> g in files || g == f
    ensures LevelOk(after, level)
  {
    forall g, h | g in after && h in after && g != h
      ensures g.number != h.number && Apart(g, h)
    {
      if g != f && h != f {
        FileOrder(files, g, h);
        if g.number == h.number {
          SameNumberSameFile(files, g, h);
        }
      } else {
        var o := if g == f then h else g;
        assert !Overlaps(o, Some(f.smallest.user), Some(f.largest.user));
      }
    }
    SortedLevelFromPairs(after, level);
  }

  lemma FlushedLevelZero(v: Version, f: File, after: seq<File>)
    requires VersionOk(v) && FileOk(f) && NumbersBelow(v, f.number) && SortedBySmallest(after)
    requires NewerThan(Elements(f.entries), ContentsFrom(v, 0))
    requires forall g :: g in after <==> g in v[0] || g == f
    ensures LevelOk(after, 0)
  {
    assert LevelOk(v[0], 0);
    forall g, h | g in after && h in after && g.number > h.number
      ensures NewerThan(Elements(g.entries), Elements(h.entries))
    {
      if g == f {
        assert h in v[0];
        forall e | e in h.entries ensures e in ContentsFrom(v, 0) {
          assert e in Contents(v[0]);
        }
      } else {
        assert g in v[0] && h in v[0];
      }
    }
    forall i, j | 0 <= i < j < |after| ensures after[i].number != after[j].number {
      assert BySmallest(after[i], after[j]) && after[i] in after && after[j] in after;
      if after[i] in v[0] && after[j] in v[0] && after[i].number == after[j].number {
        SameNumberSameFile(v[0], after[i], after[j]);
      }
    }
  }

  /** v' is v with f added at the level. */
  ghost predicate Flushed(v: Version, level: nat, f: File, v': Version) {
    && level < NUM_LEVELS
    && (forall g :: g in v'[level] <==> g in v[level] || g == f)
    && forall l | 0 <= l < NUM_LEVELS && l != level :: v'[l] == v[l]
  }

  lemma FlushKeepsOrder(v: Version, level: nat, f: File, v': Version)
    requires VersionOk(v) && FileOk(f) && PlacementOk(v, level, f) && Flushed(v, level, f, v')
    requires NewerThan(Elements(f.entries), ContentsFrom(v, 0))
    ensures LevelsNewer(v')
  {
    FlushedContents(v, level, f, v');
    forall l, m | 0 <= l < m < NUM_LEVELS ensures NewerThan(Contents(v'[l]), Contents(v'[m])) {
      assert NewerThan(Contents(v[l]), Contents(v[m]));
      if m == level {
        assert LevelOk(v[l], l);
        assert !LevelMeetsRange(v, l, f.smallest.user, f.largest.user);
        NotMeetingIsNewer(v[l], f, Contents(v[l]));
      } else if l == level {
        assert Contents(v[m]) <= ContentsFrom(v, 0);
      }
    }
  }

  lemma FlushKeepsNumbers(v: Version, level: nat, f: File, v': Version)
    requires VersionOk(v) && NumbersBelow(v, f.number) && Flushed(v, level, f, v')
    ensures LevelsDistinct(v')
  {
    forall l, m | 0 <= l < m < NUM_LEVELS ensures NoSharedNumber(v'[l], v'[m]) {
      assert NoSharedNumber(v[l], v[m]);
    }
  }

  /** A flushed memtable, newer than everything on disk, may join the version at any level the placement allows. */
  lemma FlushKeepsInvariant(v: Version, level: nat, f: File)
    requires VersionOk(v) && AllSorted(v) && FileOk(f) && NumbersBelow(v, f.number) && PlacementOk(v, level, f)
    requires NewerThan(Elements(f.entries), ContentsFrom(v, 0))
    ensures var v' := ApplyEdit(v, FlushEdit(level, f));
            VersionOk(v') && AllSorted(v') && ContentsFrom(v', 0) == ContentsFrom(v, 0) + Elements(f.entries)
  {
    var v' := ApplyEdit(v, FlushEdit(level, f));
    FlushedLevel(v, level, f);
    forall l | 0 <= l < NUM_LEVELS && l != level ensures v'[l] == v[l] {
      UntouchedLevel(v, FlushEdit(level, f), l);
    }
    forall l | 0 <= l < NUM_LEVELS ensures LevelOk(v'[l], l) && SortedBySmallest(v'[l]) {
      assert LevelOk(v[l], l);
    }
    FlushedContents(v, level, f, v');
    FlushKeepsOrder(v, level, f, v');
    FlushKeepsNumbers(v, level, f, v');
  }

  lemma FlushedContents(v: Version, level: nat, f: File, v': Version)
    requires Flushed(v, level, f, v')
    ensures Contents(v'[level]) == Contents(v[level]) + Elements(f.entries)
    ensures ContentsFrom(v', 0) == ContentsFrom(v, 0) + Elements(f.entries)
  {
    forall e ensures e in Contents(v'[level]) <==> e in Contents(v[level]) + Elements(f.entries) {
      if e in f.entries {
        assert f in v'[level];
      }
    }
    forall e ensures e in ContentsFrom(v', 0) <==> e in ContentsFrom(v, 0) + Elements(f.entries) {
      if e in ContentsFrom(v, 0) {
        var m :| 0 <= m < NUM_LEVELS && e in Contents(v[m]);
        assert e in Contents(v'[m]);
      }
      if e in ContentsFrom(v', 0) {
        var m :| 0 <= m < NUM_LEVELS && e in Contents(v'[m]);
        assert m != level ==> e in Contents(v[m]);
      }
      if e in f.entries {
        assert e in Contents(v'[level]);
      }
    }
  }

  // ---------------------------------------------------------------- states and steps

  datatype Operation = Operation(user: UserKey, kind: ValueType, value: Value)

  /** history is what was ever written; the engine itself does not keep it. */
  datatype State = State(mem: iset<Entry>, imm: Option<iset<Entry>>, version: Version, lastSequence: SequenceNumber,
                         snapshots: seq<SequenceNumber>, nextFile: nat, history: iset<Entry>)

  datatype Step =
    | Write(operations: seq<Operation>)
    | SwitchMemTable
    | FlushMemTable(level: nat, file: Option<File>)
    | TrivialMove(move: Compaction)
    | Compact(snap: SequenceNumber, compaction: Compaction, input: seq<Entry>, outputs: seq<File>)
    | TakeSnapshot
    | ReleaseSnapshot(index: nat)

  /** InsertInto: consecutive sequence numbers from first on. */
  function BatchEntries(operations: seq<Operation>, first: nat): seq<Entry>
    requires first + |operations| <= MAX_SEQUENCE
  {
    seq(|operations|, i requires 0 <= i < |operations| =>
      Entry(InternalKey(operations[i].user, first + i, operations[i].kind), operations[i].value))
  }

  ghost function Immutable(s: State): iset<Entry> {
    if s.imm.Some? then s.imm.value else iset{}
  }

  ghost function Stored(s: State): iset<Entry> {
    s.mem + (Immutable(s) + ContentsFrom(s.version, 0))
  }

  /** The oldest snapshot any reader may hold; compactions use it as smallest_snapshot. */
  function OldestSnapshot(s: State): SequenceNumber {
    if s.snapshots == [] then s.lastSequence else s.snapshots[0]
  }

  ghost predicate Init(s: State) {
    s == State(iset{}, None, seq(NUM_LEVELS, _ => []), 0, [], s.nextFile, iset{})
  }

  ghost predicate Next(s: State, step: Step, s': State) {
    match step
    case Write(operations) =>
      && s.lastSequence + |operations| < MAX_SEQUENCE
      && var es := Elements(BatchEntries(operations, s.lastSequence + 1));
         s' == s.(mem := s.mem + es, lastSequence := s.lastSequence + |operations|, history := s.history + es)
    case SwitchMemTable =>
      s.imm.None? && s' == s.(mem := iset{}, imm := Some(s.mem))
    case FlushMemTable(level, file) =>
      && s.imm.Some?
      && match file {
           case None => s.imm.value == iset{} && s' == s.(imm := None, nextFile := s.nextFile + 1)
           case Some(f) =>
             && FileOk(f) && Elements(f.entries) == s.imm.value && f.number == s.nextFile
               && PlacementOk(s.version, level, f)
             && s' == s.(imm := None, nextFile := s.nextFile + 1, version := ApplyEdit(s.version, FlushEdit(level, f)))
         }
    case TrivialMove(c) =>
      && InputsOk(s.version, c) && |c.inputs0| == 1 && c.inputs1 == []
      && s' == s.(version := ApplyEdit(s.version, CompactionEdit(c, c.inputs0)))
    case Compact(snap, c, input, outputs) =>
      // The snapshot was the oldest when the compaction started; since then it may have been released.
      && snap <= OldestSnapshot(s) && InputsOk(s.version, c)
      && CompactionResult(s.version, c, snap, input, outputs, s.nextFile)
      && s' == s.(version := ApplyEdit(s.version, CompactionEdit(c, outputs)), nextFile := s.nextFile + |outputs|)
    case TakeSnapshot =>
      s' == s.(snapshots := s.snapshots + [s.lastSequence])
    case ReleaseSnapshot(i) =>
      i < |s.snapshots| && s' == s.(snapshots := s.snapshots[..i] + s.snapshots[i + 1..])
  }

  /** The guard that SetupOtherInputs lacks: no dropped deletion was hiding a value in a file beside the inputs. */
  ghost predicate Guarded(s: State, step: Step) {
    step.Compact? ==>
      && step.compaction.level + 1 < NUM_LEVELS
      && forall i | 0 <= i < |step.input| :: !Resurfaces(s.version, step.compaction, step.snap, step.input, i)
  }

  ghost predicate BoundedBy(S: iset<Entry>, n: nat) {
    forall e | e in S :: e.key.sequence <= n
  }

  ghost predicate SnapshotsOk(s: State) {
    && (forall i, j | 0 <= i < j < |s.snapshots| :: s.snapshots[i] <= s.snapshots[j])
    && (forall i | 0 <= i < |s.snapshots| :: s.snapshots[i] <= s.lastSequence)
  }

  /** Memory over disk, newest first, with no sequence number used twice for a key, and none above the last one. */
  ghost predicate Layered(mem: iset<Entry>, imm: iset<Entry>, disk: iset<Entry>, last: nat) {
    && UniqueSeqs(mem) && UniqueSeqs(imm) && UniqueSeqs(disk)
    && NewerThan(mem, imm + disk) && NewerThan(imm, disk)
    && BoundedBy(mem + (imm + disk), last)
  }

  ghost predicate LayersOk(s: State) {
    Layered(s.mem, Immutable(s), ContentsFrom(s.version, 0), s.lastSequence)
  }

  /** Nothing is stored that was not written. */
  ghost predicate HistoryOk(s: State) {
    UniqueSeqs(s.history) && BoundedBy(s.history, s.lastSequence) && Stored(s) <= s.history
  }

  ghost predicate DiskOk(s: State) {
    VersionOk(s.version) && AllSorted(s.version) && NumbersBelow(s.version, s.nextFile)
  }

  ghost predicate ReadsOk(s: State) {
    SameReads(Stored(s), s.history, OldestSnapshot(s))
  }

  /** The version invariant and what goes with it: levels sorted, disjoint and newest first, under the memtables. */
  ghost predicate Structural(s: State) {
    DiskOk(s) && s.lastSequence < MAX_SEQUENCE && SnapshotsOk(s) && LayersOk(s) && HistoryOk(s)
  }

  // ---------------------------------------------------------------- what every step keeps

  lemma BatchIsFresh(operations: seq<Operation>, first: nat)
    requires first + |operations| <= MAX_SEQUENCE
    ensures UniqueSeqs(Elements(BatchEntries(operations, first)))
    ensures forall e | e in Elements(BatchEntries(operations, first)) :: first <= e.key.sequence < first + |operations|
  {
  }

  /** Adding entries newer than both sides keeps two sets reading alike. */
  lemma NewEntriesKeepReads(added: iset<Entry>, A: iset<Entry>, B: iset<Entry>, n: nat, snap: nat, snap': nat)
    requires UniqueSeqs(added) && UniqueSeqs(A) && UniqueSeqs(B) && BoundedBy(A, n) && BoundedBy(B, n)
    requires forall e | e in added :: e.key.sequence > n
    requires SameReads(A, B, snap) && snap <= snap'
    ensures SameReads(added + A, added + B, snap')
  {
    forall u: UserKey, s: SequenceNumber | s >= snap' ensures Read(added + A, u, s) == Read(added + B, u, s) {
      LayeredRead(added, A, u, s);
      LayeredRead(added, B, u, s);
      assert Read(A, u, s) == Read(B, u, s);
    }
  }

  lemma LayersUnique(mem: iset<Entry>, imm: iset<Entry>, disk: iset<Entry>, last: nat)
    requires Layered(mem, imm, disk, last)
    ensures UniqueSeqs(mem + (imm + disk)) && UniqueSeqs(mem + imm)
  {
    UnionHasUniqueSeqs(imm, disk);
    UnionHasUniqueSeqs(mem, imm + disk);
  }

  lemma AddedLayers(added: iset<Entry>, mem: iset<Entry>, imm: iset<Entry>, disk: iset<Entry>, last: nat, n: nat)
    requires Layered(mem, imm, disk, last) && UniqueSeqs(added)
    requires forall e | e in added :: last < e.key.sequence <= last + n
    ensures Layered(mem + added, imm, disk, last + n)
  {
  }

  lemma WriteKeepsReads(s: State, operations: seq<Operation>, s': State)
    requires SnapshotsOk(s) && LayersOk(s) && HistoryOk(s) && ReadsOk(s) && Next(s, Write(operations), s')
    ensures ReadsOk(s') && OldestSnapshot(s) <= OldestSnapshot(s')
  {
    var added := Elements(BatchEntries(operations, s.lastSequence + 1));
    BatchIsFresh(operations, s.lastSequence + 1);
    LayersUnique(s.mem, Immutable(s), ContentsFrom(s.version, 0), s.lastSequence);
    NewEntriesKeepReads(added, Stored(s), s.history, s.lastSequence, OldestSnapshot(s), OldestSnapshot(s'));
    assert added + Stored(s) == Stored(s') && added + s.history == s'.history;
  }

  lemma WriteKeepsStructure(s: State, operations: seq<Operation>, s': State)
    requires Structural(s) && Next(s, Write(operations), s')
    ensures Structural(s')
  {
    WriteKeepsLayers(s, operations, s');
    WriteKeepsHistory(s, operations, s');
  }

  lemma WriteKeepsLayers(s: State, operations: seq<Operation>, s': State)
    requires LayersOk(s) && Next(s, Write(operations), s')
    ensures LayersOk(s')
  {
    var added := Elements(BatchEntries(operations, s.lastSequence + 1));
    BatchIsFresh(operations, s.lastSequence + 1);
    AddedLayers(added, s.mem, Immutable(s), ContentsFrom(s.version, 0), s.lastSequence, |operations|);
  }

  lemma WriteKeepsHistory(s: State, operations: seq<Operation>, s': State)
    requires HistoryOk(s) && Next(s, Write(operations), s')
    ensures HistoryOk(s')
  {
    var added := Elements(BatchEntries(operations, s.lastSequence + 1));
    BatchIsFresh(operations, s.lastSequence + 1);
    AddedHistory(added, s.history, s.lastSequence, |operations|);
    assert Stored(s') == added + Stored(s);
  }

  lemma AddedHistory(added: iset<Entry>, history: iset<Entry>, last: nat, n: nat)
    requires UniqueSeqs(history) && BoundedBy(history, last) && UniqueSeqs(added)
    requires forall e | e in added :: last < e.key.sequence <= last + n
    ensures UniqueSeqs(history + added) && BoundedBy(history + added, last + n)
  {
  }

  lemma SwitchKeepsStructure(s: State, s': State)
    requires Structural(s) && Next(s, SwitchMemTable, s')
    ensures Structural(s') && Stored(s') == Stored(s)
  {
    assert Stored(s) == Stored(s');
    assert LayersOk(s');
  }

  /** A flush moves the immutable memtable's entries to disk without changing the union. */
  lemma SunkLayers(mem: iset<Entry>, imm: iset<Entry>, disk: iset<Entry>, last: nat)
    requires Layered(mem, imm, disk, last)
    ensures Layered(mem, iset{}, imm + disk, last)
    ensures mem + (imm + disk) == mem + (iset{} + (imm + disk))
  {
    UnionHasUniqueSeqs(imm, disk);
    assert iset{} + (imm + disk) == imm + disk;
  }

  lemma FlushStepKeepsStructure(s: State, level: nat, file: Option<File>, s': State)
    requires Structural(s) && Next(s, FlushMemTable(level, file), s')
    ensures Structural(s') && Stored(s') == Stored(s)
  {
    var disk := ContentsFrom(s.version, 0);
    assert DiskOk(s') && ContentsFrom(s'.version, 0) == Immutable(s) + disk by {
      if file.Some? {
        FlushKeepsInvariant(s.version, level, file.value);
        FlushedNumbers(s.version, level, file.value);
      }
      assert disk + Immutable(s) == Immutable(s) + disk;
    }
    SunkLayers(s.mem, Immutable(s), disk, s.lastSequence);
    assert Stored(s') == Stored(s);
  }

  lemma FlushedNumbers(v: Version, level: nat, f: File)
    requires VersionOk(v) && AllSorted(v) && FileOk(f) && NumbersBelow(v, f.number) && PlacementOk(v, level, f)
    requires NewerThan(Elements(f.entries), ContentsFrom(v, 0))
    ensures NumbersBelow(ApplyEdit(v, FlushEdit(level, f)), f.number + 1)
  {
    FlushedLevel(v, level, f);
    forall l | 0 <= l < NUM_LEVELS && l != level ensures ApplyEdit(v, FlushEdit(level, f))[l] == v[l] {
      UntouchedLevel(v, FlushEdit(level, f), l);
    }
  }

  lemma RewrittenNumbers(v: Version, c: Compaction, outputs: seq<File>, v': Version, n: nat)
    requires InputsOk(v, c) && Replaced(v, c, outputs, v')
    requires NumbersBelow(v, n) && forall o | o in outputs :: o.number < n
    ensures NumbersBelow(v', n)
  {
    forall l, f | 0 <= l < NUM_LEVELS && f in v'[l] ensures f.number < n {
      assert l != c.level && l != c.level + 1 ==> v'[l] == v[l];
    }
  }

  /** Swapping the disk contents for ones that read the same leaves the whole engine reading the same. */
  lemma DiskSwapKeepsReads(top: iset<Entry>, disk: iset<Entry>, disk': iset<Entry>, history: iset<Entry>, snap: nat)
    requires UniqueSeqs(top) && UniqueSeqs(disk) && UniqueSeqs(disk') && NewerThan(top, disk) && disk' <= disk
    requires SameReads(disk', disk, snap) && SameReads(top + disk, history, snap)
    ensures SameReads(top + disk', history, snap)
  {
    NewerThanParts(top, top, disk, disk');
    forall u: UserKey, s: SequenceNumber | s >= snap ensures Read(top + disk', u, s) == Read(history, u, s) {
      LayeredRead(top, disk, u, s);
      LayeredRead(top, disk', u, s);
      assert Read(disk', u, s) == Read(disk, u, s);
      assert Read(top + disk, u, s) == Read(history, u, s);
    }
  }

  lemma ThinnedLayers(mem: iset<Entry>, imm: iset<Entry>, disk: iset<Entry>, disk': iset<Entry>, last: nat)
    requires Layered(mem, imm, disk, last) && disk' <= disk
    ensures Layered(mem, imm, disk', last)
  {
    NewerThanParts(mem, mem, imm + disk, imm + disk');
    NewerThanParts(imm, imm, disk, disk');
  }

  lemma RewriteOnlyThins(v: Version, c: Compaction, outputs: seq<File>)
    requires VersionOk(v) && AllSorted(v) && InputsOk(v, c) && OutputsFit(v, c, outputs)
    ensures ContentsFrom(ApplyEdit(v, CompactionEdit(c, outputs)), 0) <= ContentsFrom(v, 0)
  {
    CompactionEditMeans(v, c, outputs);
    SplitBefore(v, c);
    SplitAfter(v, c, outputs, ApplyEdit(v, CompactionEdit(c, outputs)));
  }

  /** s' is s after the files of a compaction have been exchanged. */
  ghost predicate Rewritten(s: State, c: Compaction, outputs: seq<File>, s': State) {
    && InputsOk(s.version, c) && OutputsFit(s.version, c, outputs)
    && s'.version == ApplyEdit(s.version, CompactionEdit(c, outputs))
    && s' == s.(version := s'.version, nextFile := s'.nextFile)
    && s.nextFile <= s'.nextFile && forall o | o in outputs :: o.number < s'.nextFile
  }

  /** Whatever a compaction drops, the levels stay sorted, disjoint and newest first. */
  lemma RewriteKeepsStructure(s: State, c: Compaction, outputs: seq<File>, s': State)
    requires Structural(s) && Rewritten(s, c, outputs, s')
    ensures Structural(s') && ContentsFrom(s'.version, 0) <= ContentsFrom(s.version, 0)
  {
    assert DiskOk(s') by {
      CompactionEditMeans(s.version, c, outputs);
      CompactionKeepsInvariant(s.version, c, outputs);
      RewrittenNumbers(s.version, c, outputs, s'.version, s'.nextFile);
    }
    RewriteOnlyThins(s.version, c, outputs);
    ThinnedLayers(s.mem, Immutable(s), ContentsFrom(s.version, 0), ContentsFrom(s'.version, 0), s.lastSequence);
  }

  lemma RewriteKeepsReads(s: State, c: Compaction, outputs: seq<File>, snap: SequenceNumber, s': State)
    requires Structural(s) && ReadsOk(s) && Rewritten(s, c, outputs, s') && snap <= OldestSnapshot(s)
    requires SameReads(ContentsFrom(s'.version, 0), ContentsFrom(s.version, 0), snap)
    ensures ReadsOk(s')
  {
    var top, disk, disk' := s.mem + Immutable(s), ContentsFrom(s.version, 0), ContentsFrom(s'.version, 0);
    RewriteKeepsStructure(s, c, outputs, s');
    LayersUnique(s.mem, Immutable(s), disk, s.lastSequence);
    assert top + disk == Stored(s) && top + disk' == Stored(s');
    DiskSwapKeepsReads(top, disk, disk', s.history, OldestSnapshot(s));
  }

  /** A trivial move keeps the very same entries. */
  lemma MoveKeepsContents(v: Version, c: Compaction)
    requires VersionOk(v) && AllSorted(v) && InputsOk(v, c) && c.inputs1 == [] && OutputsFit(v, c, c.inputs0)
    ensures ContentsFrom(ApplyEdit(v, CompactionEdit(c, c.inputs0)), 0) == ContentsFrom(v, 0)
  {
    var v' := ApplyEdit(v, CompactionEdit(c, c.inputs0));
    assert ContentsFrom(v, 0) == Newer(v, c) + (Contents(c.inputs0) + Older(v, c)) by {
      SplitBefore(v, c);
      assert InputEntries(c) == Contents(c.inputs0);
    }
    assert ContentsFrom(v', 0) == Newer(v, c) + (Contents(c.inputs0) + Older(v, c)) by {
      CompactionEditMeans(v, c, c.inputs0);
      SplitAfter(v, c, c.inputs0, v');
    }
  }

  lemma MoveIsRewrite(s: State, c: Compaction, s': State)
    requires Structural(s) && Next(s, TrivialMove(c), s')
    ensures Rewritten(s, c, c.inputs0, s') && ContentsFrom(s'.version, 0) == ContentsFrom(s.version, 0)
  {
    MovedFits(s.version, c);
    MoveKeepsContents(s.version, c);
    forall o | o in c.inputs0 ensures o.number < s.nextFile {
      assert o in s.version[c.level];
    }
  }

  lemma MovedFits(v: Version, c: Compaction)
    requires VersionOk(v) && InputsOk(v, c) && |c.inputs0| == 1
    ensures OutputsFit(v, c, c.inputs0)
  {
    assert LevelOk(v[c.level], c.level);
    var o := c.inputs0[0];
    assert c.inputs0 == [o] && o in v[c.level];
    forall l, g | 0 <= l < NUM_LEVELS && g in v[l] && g.number == o.number ensures l == c.level && g == o {
      assert l < c.level ==> NoSharedNumber(v[l], v[c.level]);
      assert c.level < l ==> NoSharedNumber(v[c.level], v[l]);
      assert l == c.level;
      SameNumberSameFile(v[c.level], g, o);
    }
  }

  lemma CompactIsRewrite(s: State, step: Step, s': State)
    requires Structural(s) && step.Compact? && Next(s, step, s')
    ensures Rewritten(s, step.compaction, step.outputs, s')
  {
    ResultFits(s.version, step.compaction, step.snap, step.input, step.outputs, s.nextFile);
  }

  lemma CompactKeepsReads(s: State, step: Step, s': State)
    requires Structural(s) && ReadsOk(s) && step.Compact? && Next(s, step, s') && Guarded(s, step)
    ensures ReadsOk(s')
  {
    CompactIsRewrite(s, step, s');
    CompactionIsSafeExactlyWhen(s.version, step.compaction, step.snap, step.input, step.outputs, s.nextFile);
    RewriteKeepsReads(s, step.compaction, step.outputs, step.snap, s');
  }

  lemma SnapshotsStaySorted(s: State, step: Step, s': State)
    requires SnapshotsOk(s) && Next(s, step, s') && (step.TakeSnapshot? || step.ReleaseSnapshot?)
    ensures SnapshotsOk(s') && OldestSnapshot(s) <= OldestSnapshot(s')
  {
    if step.ReleaseSnapshot? {
      StaysSorted(s.snapshots, step.index);
    }
  }

  lemma StaysSorted(a: seq<SequenceNumber>, i: nat)
    requires i < |a| && forall j, k | 0 <= j < k < |a| :: a[j] <= a[k]
    ensures var b := a[..i] + a[i + 1..];
            && (forall j, k | 0 <= j < k < |b| :: b[j] <= b[k])
            && (forall x | x in b :: x in a)
            && (b != [] ==> a[0] <= b[0])
  {
    var b := a[..i] + a[i + 1..];
    assert forall j | 0 <= j < |b| :: b[j] == if j < i then a[j] else a[j + 1];
  }

  /** Every step keeps the structure, guarded or not. */
  lemma StepKeepsStructure(s: State, step: Step, s': State)
    requires Structural(s) && Next(s, step, s')
    ensures Structural(s')
  {
    match step
    case Write(operations) => WriteKeepsStructure(s, operations, s');
    case SwitchMemTable => SwitchKeepsStructure(s, s');
    case FlushMemTable(level, file) => FlushStepKeepsStructure(s, level, file, s');
    case TrivialMove(c) =>
      MoveIsRewrite(s, c, s');
      RewriteKeepsStructure(s, c, c.inputs0, s');
    case Compact(_, c, _, outputs) =>
      CompactIsRewrite(s, step, s');
      RewriteKeepsStructure(s, c, outputs, s');
    case TakeSnapshot => SnapshotsStaySorted(s, step, s');
    case ReleaseSnapshot(_) => SnapshotsStaySorted(s, step, s');
  }

  /** Every guarded step keeps what readers see. */
  lemma StepKeepsReads(s: State, step: Step, s': State)
    requires Structural(s) && ReadsOk(s) && Next(s, step, s') && Guarded(s, step)
    ensures ReadsOk(s')
  {
    match step
    case Write(operations) => WriteKeepsReads(s, operations, s');
    case SwitchMemTable => SwitchKeepsStructure(s, s');
    case FlushMemTable(level, file) => FlushStepKeepsStructure(s, level, file, s');
    case TrivialMove(c) =>
      MoveIsRewrite(s, c, s');
      RewriteKeepsReads(s, c, c.inputs0, OldestSnapshot(s), s');
    case Compact(_, _, _, _) => CompactKeepsReads(s, step, s');
    case TakeSnapshot => SnapshotsStaySorted(s, step, s');
    case ReleaseSnapshot(_) => SnapshotsStaySorted(s, step, s');
  }

  // ---------------------------------------------------------------- runs

  ghost predicate IsRun(states: seq<State>, steps: seq<Step>) {
    && |states| == |steps| + 1
    && Init(states[0])
    && forall i | 0 <= i < |steps| :: Next(states[i], steps[i], states[i + 1])
  }

  ghost predicate AllGuarded(states: seq<State>, steps: seq<Step>, n: nat)
    requires n <= |steps| <= |states|
  {
    forall i {:trigger Guarded(states[i], steps[i])} | 0 <= i < n :: Guarded(states[i], steps[i])
  }

  lemma InitIsStructural(s: State)
    requires Init(s)
    ensures Structural(s) && ReadsOk(s)
  {
    var v := s.version;
    forall l | 0 <= l < NUM_LEVELS ensures LevelOk(v[l], l) && v[l] == [] {
    }
    assert ContentsFrom(v, 0) == iset{};
    assert Stored(s) == s.history;
    assert DiskOk(s) && LayersOk(s);
  }

  /**
   The version invariant in every state of every run, whatever compactions drop: each level sorted and disjoint, newer
   above older, no file number used twice.
   */
  lemma {:induction false} RunKeepsStructure(states: seq<State>, steps: seq<Step>, i: nat)
    requires IsRun(states, steps) && i < |states|
    ensures Structural(states[i])
  {
    if i == 0 {
      InitIsStructural(states[0]);
    } else {
      RunKeepsStructure(states, steps, i - 1);
      StepKeepsStructure(states[i - 1], steps[i - 1], states[i]);
    }
  }

  /** As long as every compaction so far was guarded, all live and future snapshots read what was written. */
  lemma {:induction false} RunKeepsReads(states: seq<State>, steps: seq<Step>, i: nat)
    requires IsRun(states, steps) && i < |states| && AllGuarded(states, steps, i)
    ensures ReadsOk(states[i])
  {
    if i == 0 {
      InitIsStructural(states[0]);
    } else {
      RunKeepsReads(states, steps, i - 1);
      RunKeepsStructure(states, steps, i - 1);
      StepKeepsReads(states[i - 1], steps[i - 1], states[i]);
    }
  }

  /** Later history only adds entries above what was last written earlier. */
  lemma {:induction false} HistoryGrows(states: seq<State>, steps: seq<Step>, i: nat, j: nat)
    requires IsRun(states, steps) && i <= j < |states|
    ensures states[i].lastSequence <= states[j].lastSequence && states[i].history <= states[j].history
    ensures forall e | e in states[j].history && e !in states[i].history :: e.key.sequence > states[i].lastSequence
    decreases j
  {
    if i < j {
      HistoryGrows(states, steps, i, j - 1);
      assert Next(states[j - 1], steps[j - 1], states[j]);
      if steps[j - 1].Write? {
        BatchIsFresh(steps[j - 1].operations, states[j - 1].lastSequence + 1);
      }
    }
  }

  /** Entries above a snapshot do not affect what it reads. */
  lemma LaterEntriesDoNotMatter(A: iset<Entry>, B: iset<Entry>, u: UserKey, n: nat)
    requires A <= B && UniqueSeqs(B) && forall e | e in B && e !in A :: e.key.sequence > n
    ensures Read(A, u, n) == Read(B, u, n)
  {
    if e :| e in A && Qualifies(e, u, n) {
      var newest := NewestExists(A, u, n, e);
      ReadIs(A, u, n, newest);
      ReadIs(B, u, n, newest);
    } else {
      ReadNothing(A, u, n);
      ReadNothing(B, u, n);
    }
  }

  /**
   Snapshot isolation across any guarded run: a snapshot taken by state i and still readable in state j reads in state j
   exactly what had been written by state i, no matter which flushes, moves, compactions and writes came between.
   */
  lemma SnapshotsNeverChange(states: seq<State>, steps: seq<Step>, i: nat, j: nat, u: UserKey, n: SequenceNumber)
    requires IsRun(states, steps) && i <= j < |states|
    requires AllGuarded(states, steps, j)
    requires n <= states[i].lastSequence && OldestSnapshot(states[j]) <= n
    ensures Read(Stored(states[j]), u, n) == Read(states[i].history, u, n)
  {
    RunKeepsStructure(states, steps, j);
    RunKeepsReads(states, steps, j);
    HistoryGrows(states, steps, i, j);
    assert ReadsOk(states[j]) && HistoryOk(states[j]);
    LaterEntriesDoNotMatter(states[i].history, states[j].history, u, n);
  }

  // ---------------------------------------------------------------- DBImpl::Get

  /** Memtable, then immutable memtable, then the version: the first to have an entry answers. */
  method Get(mem: seq<Entry>, imm: Option<seq<Entry>>, v: Version, u: UserKey, n: SequenceNumber, ghost last: nat)
    returns (r: Answer)
    requires VersionOk(v) && Ordered(mem) && (imm.Some? ==> Ordered(imm.value))
    requires Layered(Elements(mem), Elements(if imm.Some? then imm.value else []), ContentsFrom(v, 0), last)
    ensures r == Read(Elements(mem) + (Elements(if imm.Some? then imm.value else []) + ContentsFrom(v, 0)), u, n)
  {
    ghost var disk := ContentsFrom(v, 0);
    ghost var second := Elements(if imm.Some? then imm.value else []);
    var hit := Lookup(mem, u, n);
    UnionHasUniqueSeqs(second, disk);
    LayerDecides(Elements(mem), second + disk, u, n, hit);
    if hit.Some? {
      return AnswerOf(hit.value);
    }
    hit := if imm.Some? then Lookup(imm.value, u, n) else None;
    LayerDecides(second, disk, u, n, hit);
    if hit.Some? {
      return AnswerOf(hit.value);
    }
    r := Versions.Get(v, u, n);
  }
}
