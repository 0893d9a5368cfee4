/**
 Compaction preserves reads, at the level of whole versions: the exact condition, a check on the chosen inputs that
 guarantees it, and a concrete version on which the inputs SetupOtherInputs chooses break it.
 */
module CompactionReads {
  import opened Keys
  import opened Reads
  import opened Versions
  import opened Inputs
  import opened Selection
  import opened Compacting
  import opened VersionBuilder
  import opened Rewrites

  // ---------------------------------------------------------------- a version, seen from a compaction

  ghost function InputEntries(c: Compaction): iset<Entry> {
    Contents(c.inputs0) + Contents(c.inputs1)
  }

  /** Some input entry sorts before the file. */
  ghost predicate FollowsInputs(c: Compaction, g: File) {
    exists x :: x in InputEntries(c) && Before(x.key, g.smallest)
  }

  ghost predicate Beside(v: Version, c: Compaction, g: File)
    requires c.level + 1 < NUM_LEVELS
  {
    g in v[c.level + 1] && g !in c.inputs1
  }

  /** Entries of the output level, outside the inputs, that sort before them. */
  ghost function Ahead(v: Version, c: Compaction): iset<Entry>
    requires c.level + 1 < NUM_LEVELS
  {
    iset e, g | Beside(v, c, g) && !FollowsInputs(c, g) && e in g.entries :: e
  }

  /** Entries of the output level, outside the inputs, that sort after them. */
  ghost function After(v: Version, c: Compaction): iset<Entry>
    requires c.level + 1 < NUM_LEVELS
  {
    iset e, g | Beside(v, c, g) && FollowsInputs(c, g) && e in g.entries :: e
  }

  ghost function Staying(v: Version, c: Compaction): iset<Entry>
    requires c.level < NUM_LEVELS
  {
    iset e, f | f in v[c.level] && f !in c.inputs0 && e in f.entries :: e
  }

  ghost function Above(v: Version, c: Compaction): iset<Entry> {
    iset e, m | 0 <= m < c.level && m < NUM_LEVELS && e in Contents(v[m]) :: e
  }

  /** Everything that outranks the inputs: it is newer than they are, key by key. */
  ghost function Newer(v: Version, c: Compaction): iset<Entry>
    requires c.level + 1 < NUM_LEVELS
  {
    Above(v, c) + Staying(v, c) + Ahead(v, c)
  }

  /** Everything that the inputs outrank. */
  ghost function Older(v: Version, c: Compaction): iset<Entry>
    requires c.level + 1 < NUM_LEVELS
  {
    After(v, c) + ContentsFrom(v, c.level + 2)
  }

  lemma SplitBefore(v: Version, c: Compaction)
    requires InputsOk(v, c)
    ensures ContentsFrom(v, 0) == Newer(v, c) + (InputEntries(c) + Older(v, c))
  {
    forall e ensures e in ContentsFrom(v, 0) <==> e in Newer(v, c) + (InputEntries(c) + Older(v, c)) {
      if e in ContentsFrom(v, 0) {
        var m :| 0 <= m < NUM_LEVELS && e in Contents(v[m]);
        var f :| f in v[m] && e in f.entries;
        assert m == c.level + 1 && f !in c.inputs1 ==> Beside(v, c, f);
        assert m == c.level && f in c.inputs0 ==> e in Contents(c.inputs0);
        assert m == c.level + 1 && f in c.inputs1 ==> e in Contents(c.inputs1);
      } else {
        assert forall m | 0 <= m < NUM_LEVELS :: e !in Contents(v[m]);
        InputsWithin(v, c);
        assert e !in Ahead(v, c) && e !in After(v, c) && e !in Staying(v, c);
      }
    }
  }

  lemma SplitAfter(v: Version, c: Compaction, outputs: seq<File>, v': Version)
    requires InputsOk(v, c) && Replaced(v, c, outputs, v')
    ensures ContentsFrom(v', 0) == Newer(v, c) + (Contents(outputs) + Older(v, c))
  {
    forall e ensures e in ContentsFrom(v', 0) <==> e in Newer(v, c) + (Contents(outputs) + Older(v, c)) {
      if e in ContentsFrom(v', 0) {
        var m :| 0 <= m < NUM_LEVELS && e in Contents(v'[m]);
        var f :| f in v'[m] && e in f.entries;
        assert m != c.level && m != c.level + 1 ==> v'[m] == v[m];
        assert m == c.level + 1 && f !in outputs ==> Beside(v, c, f);
      } else {
        assert forall m | 0 <= m < NUM_LEVELS :: e !in Contents(v'[m]);
        NotInPieces(v, c, outputs, v', e);
      }
    }
  }

  lemma NotInPieces(v: Version, c: Compaction, outputs: seq<File>, v': Version, e: Entry)
    requires InputsOk(v, c) && Replaced(v, c, outputs, v')
    requires forall m | 0 <= m < NUM_LEVELS :: e !in Contents(v'[m])
    ensures e !in Newer(v, c) + (Contents(outputs) + Older(v, c))
  {
    assert forall m | 0 <= m < NUM_LEVELS && m != c.level && m != c.level + 1 :: e !in Contents(v[m]);
    assert e !in Above(v, c) && e !in ContentsFrom(v, c.level + 2);
    assert forall g | Beside(v, c, g) :: g in v'[c.level + 1] && e !in g.entries;
    assert forall f | f in v[c.level] && f !in c.inputs0 :: f in v'[c.level] && e !in f.entries;
    assert forall o | o in outputs :: o in v'[c.level + 1] && e !in o.entries;
  }

  // ---------------------------------------------------------------- the layers are ordered by age

  lemma BesideIsOneSided(v: Version, c: Compaction, g: File, x: Entry)
    requires VersionOk(v) && InputsOk(v, c) && Beside(v, c, g) && x in InputEntries(c)
    ensures if FollowsInputs(c, g) then Before(x.key, g.smallest) else Before(g.largest, x.key)
  {
    assert LevelOk(v[c.level], c.level) && LevelOk(v[c.level + 1], c.level + 1);
    InputsOnOneSide(v[c.level + 1], c.inputs0, c.inputs1, g);
    FileBounds(g, g.entries[0]);
  }

  lemma SomeInput(v: Version, c: Compaction) returns (x: Entry)
    requires VersionOk(v) && InputsOk(v, c)
    ensures x in InputEntries(c)
  {
    assert LevelOk(v[c.level], c.level);
    var f := c.inputs0[0];
    assert f in c.inputs0 && FileOk(f);
    x := f.entries[0];
    assert x in f.entries;
    assert x in Contents(c.inputs0);
  }

  /** An entry of an input and one of a file beside the inputs, per user key. */
  lemma BesideEntry(v: Version, c: Compaction, g: File, b: Entry, x: Entry)
    requires VersionOk(v) && InputsOk(v, c) && Beside(v, c, g) && b in g.entries && x in InputEntries(c)
    ensures if FollowsInputs(c, g) then Before(x.key, b.key) else Before(b.key, x.key)
  {
    assert LevelOk(v[c.level + 1], c.level + 1);
    BesideIsOneSided(v, c, g, x);
    FileBounds(g, b);
  }

  lemma InputsOutrankOlder(v: Version, c: Compaction)
    requires VersionOk(v) && InputsOk(v, c)
    ensures NewerThan(InputEntries(c), Older(v, c))
  {
    InputsWithin(v, c);
    forall a, b | a in InputEntries(c) && b in Older(v, c)
      ensures a.key.user == b.key.user ==> a.key.sequence > b.key.sequence
    {
      if g :| Beside(v, c, g) && FollowsInputs(c, g) && b in g.entries {
        BesideEntry(v, c, g, b, a);
      } else {
        var m :| c.level + 2 <= m < NUM_LEVELS && b in Contents(v[m]);
        assert NewerThan(Contents(v[c.level]), Contents(v[m])) && NewerThan(Contents(v[c.level + 1]), Contents(v[m]));
      }
    }
  }

  lemma AheadIsNewer(v: Version, c: Compaction)
    requires VersionOk(v) && InputsOk(v, c)
    ensures NewerThan(Ahead(v, c), InputEntries(c) + Older(v, c))
  {
    var x := SomeInput(v, c);
    forall a, b | a in Ahead(v, c) && b in InputEntries(c) + Older(v, c)
      ensures a.key.user == b.key.user ==> a.key.sequence > b.key.sequence
    {
      var g :| Beside(v, c, g) && !FollowsInputs(c, g) && a in g.entries;
      if b in InputEntries(c) {
        BesideEntry(v, c, g, a, b);
      } else if h :| Beside(v, c, h) && FollowsInputs(c, h) && b in h.entries {
        BesideEntry(v, c, g, a, x);
        BesideEntry(v, c, h, b, x);
      } else {
        var m :| c.level + 2 <= m < NUM_LEVELS && b in Contents(v[m]);
        assert NewerThan(Contents(v[c.level + 1]), Contents(v[m]));
        assert a in Contents(v[c.level + 1]);
      }
    }
  }

  /** Every entry the inputs do not outrank and that is not ahead of them sits in a shallower place. */
  lemma LevelOfLower(v: Version, c: Compaction, b: Entry) returns (m: nat)
    requires InputsOk(v, c) && b in InputEntries(c) + Older(v, c)
    ensures c.level <= m < NUM_LEVELS && b in Contents(v[m])
    ensures m == c.level ==> b in Contents(c.inputs0)
  {
    if b in Contents(c.inputs0) {
      m := c.level;
    } else if b in Contents(c.inputs1) || b in After(v, c) {
      m := c.level + 1;
    } else {
      m :| c.level + 2 <= m < NUM_LEVELS && b in Contents(v[m]);
    }
  }

  lemma NewerIsNewer(v: Version, c: Compaction)
    requires VersionOk(v) && InputsOk(v, c)
    ensures NewerThan(Newer(v, c), InputEntries(c) + Older(v, c))
  {
    AheadIsNewer(v, c);
    forall a, b | a in Newer(v, c) && b in InputEntries(c) + Older(v, c)
      ensures a.key.user == b.key.user ==> a.key.sequence > b.key.sequence
    {
      var m := LevelOfLower(v, c, b);
      if a in Above(v, c) {
        var l :| 0 <= l < c.level && a in Contents(v[l]);
        assert NewerThan(Contents(v[l]), Contents(v[m]));
      } else if a in Staying(v, c) {
        var f :| f in v[c.level] && f !in c.inputs0 && a in f.entries;
        if m == c.level {
          var g :| g in c.inputs0 && b in g.entries;
          assert NewerThan(Elements(f.entries), Elements(g.entries));
          assert a in Elements(f.entries) && b in Elements(g.entries);
        } else {
          assert NewerThan(Contents(v[c.level]), Contents(v[m]));
          assert a in Contents(v[c.level]);
        }
      }
    }
  }

  // ---------------------------------------------------------------- compaction preserves reads

  /** What DoCompactionWork wrote: the survivors of the merged input, cut into files under fresh numbers. */
  ghost predicate CompactionResult(v: Version, c: Compaction, snap: SequenceNumber, input: seq<Entry>,
                                   outputs: seq<File>, first: nat)
  {
    && Ordered(input) && Elements(input) == InputEntries(c)
    && Flatten(outputs) == Kept(input, |input|, v, c.level, snap)
    && OutputsOk(outputs, first)
  }

  ghost predicate NumbersBelow(v: Version, n: nat) {
    forall l, f | 0 <= l < NUM_LEVELS && f in v[l] :: f.number < n
  }

  lemma {:induction false} FlattenElements(outputs: seq<File>)
    ensures Elements(Flatten(outputs)) == Contents(outputs)
  {
    if outputs != [] {
      var init, last := outputs[..|outputs| - 1], outputs[|outputs| - 1];
      assert outputs == init + [last];
      FlattenElements(init);
      forall e ensures e in Flatten(outputs) <==> e in Contents(outputs) {
        assert e in Flatten(init) <==> e in Elements(Flatten(init));
        if f :| f in outputs && e in f.entries {
          assert f in init || f == last;
        }
      }
    }
  }

  /** Files cut from an ordered list are disjoint and in order. */
  lemma {:induction false} CutsAreDisjoint(outputs: seq<File>)
    requires FilesOk(outputs) && Ordered(Flatten(outputs))
    ensures SortedDisjoint(outputs)
  {
    if outputs != [] {
      var init, last := outputs[..|outputs| - 1], outputs[|outputs| - 1];
      var es := Flatten(init);
      assert forall i, j | 0 <= i < j < |es| :: es[i] == (es + last.entries)[i] && es[j] == (es + last.entries)[j];
      CutsAreDisjoint(init);
      FlattenElements(init);
      forall i | 0 <= i < |init| ensures Before(init[i].largest, last.smallest) {
        assert FileOk(init[i]) && FileOk(last);
        var e := init[i].entries[|init[i].entries| - 1];
        assert e in init[i].entries && init[i] in init;
        assert e in Contents(init) && e in Elements(es);
        var k :| 0 <= k < |es| && es[k] == e;
        assert (es + last.entries)[k] == e && (es + last.entries)[|es|] == last.entries[0];
      }
    }
  }

  lemma ResultFits(v: Version, c: Compaction, snap: SequenceNumber, input: seq<Entry>, outputs: seq<File>, first: nat)
    requires CompactionResult(v, c, snap, input, outputs, first) && NumbersBelow(v, first)
    ensures OutputsFit(v, c, outputs)
    ensures Contents(outputs) == KeptAll(input, v, c.level, snap)
  {
    KeptOrdered(input, |input|, v, c.level, snap);
    KeptElements(input, |input|, v, c.level, snap);
    FlattenElements(outputs);
    assert FilesOk(outputs);
    CutsAreDisjoint(outputs);
    forall o, l, g | o in outputs && 0 <= l < NUM_LEVELS && g in v[l] ensures g.number != o.number {
      var i :| 0 <= i < |outputs| && outputs[i] == o;
    }
  }

  /**
   An obsolete deletion was hiding a value in a file beside the inputs, and nothing newer hides it from the oldest
   snapshot.
   */
  ghost predicate Resurfaces(v: Version, c: Compaction, snap: SequenceNumber, input: seq<Entry>, i: nat)
    requires i < |input| && c.level + 1 < NUM_LEVELS
  {
    && Obsolete(input, i, v, c.level, snap)
    && !HasEntry(Newer(v, c), input[i].key.user, snap)
    && Read(After(v, c), input[i].key.user, snap) != NotFound
  }

  /** Below the output level there is nothing for an obsolete deletion's key, so only the files beside matter. */
  lemma OlderReadsAfter(v: Version, c: Compaction, snap: SequenceNumber, u: UserKey)
    requires VersionOk(v) && InputsOk(v, c) && IsBaseLevel(v, c.level, u)
    ensures Read(Older(v, c), u, snap) == Read(After(v, c), u, snap)
  {
    VersionHasUniqueSeqs(v, 0);
    SplitBefore(v, c);
    forall e | e in ContentsFrom(v, c.level + 2) ensures e.key.user != u {
      var m, f :| c.level + 2 <= m < NUM_LEVELS && f in v[m] && e in f.entries;
      assert LevelOk(v[m], m);
      FileBounds(f, e);
      assert !Covers(f, u);
    }
    if e :| e in After(v, c) && Qualifies(e, u, snap) {
      var n := NewestExists(After(v, c), u, snap, e);
      ReadIs(After(v, c), u, snap, n);
      ReadIs(Older(v, c), u, snap, n);
    } else {
      ReadNothing(After(v, c), u, snap);
      ReadNothing(Older(v, c), u, snap);
    }
  }

  lemma LayersAround(v: Version, c: Compaction, outputs: seq<File>, v': Version, u: UserKey, s: SequenceNumber)
    requires VersionOk(v) && InputsOk(v, c) && OutputsFit(v, c, outputs) && Replaced(v, c, outputs, v')
    ensures Read(ContentsFrom(v, 0), u, s) ==
            if HasEntry(Newer(v, c), u, s) then Read(Newer(v, c), u, s) else Read(InputEntries(c) + Older(v, c), u, s)
    ensures Read(ContentsFrom(v', 0), u, s) ==
            if HasEntry(Newer(v, c), u, s) then Read(Newer(v, c), u, s) else Read(Contents(outputs) + Older(v, c), u, s)
  {
    VersionHasUniqueSeqs(v, 0);
    SplitBefore(v, c);
    SplitAfter(v, c, outputs, v');
    NewerIsNewer(v, c);
    LayeredRead(Newer(v, c), InputEntries(c) + Older(v, c), u, s);
    NewerThanParts(Newer(v, c), Newer(v, c), InputEntries(c) + Older(v, c), Contents(outputs) + Older(v, c));
    LayeredRead(Newer(v, c), Contents(outputs) + Older(v, c), u, s);
  }

  /**
   Installing a compaction preserves every read at every snapshot from the oldest live one on, exactly when no
   deletion it drops resurfaces an older value from an output-level file left out of the inputs.
   */
  lemma CompactionIsSafeExactlyWhen(v: Version, c: Compaction, snap: SequenceNumber, input: seq<Entry>,
                                    outputs: seq<File>, first: nat)
    requires VersionOk(v) && AllSorted(v) && InputsOk(v, c) && NumbersBelow(v, first) && snap < MAX_SEQUENCE
    requires CompactionResult(v, c, snap, input, outputs, first)
    ensures SameReads(ContentsFrom(ApplyEdit(v, CompactionEdit(c, outputs)), 0), ContentsFrom(v, 0), snap)
       <==> forall i | 0 <= i < |input| :: !Resurfaces(v, c, snap, input, i)
  {
    var v' := ApplyEdit(v, CompactionEdit(c, outputs));
    var kept := KeptAll(input, v, c.level, snap);
    ResultFits(v, c, snap, input, outputs, first);
    CompactionEditMeans(v, c, outputs);
    VersionHasUniqueSeqs(v, 0);
    SplitBefore(v, c);
    InputsOutrankOlder(v, c);
    if i :| 0 <= i < |input| && Resurfaces(v, c, snap, input, i) {
      var u := input[i].key.user;
      ObsoleteIsNewest(input, i, v, c.level, snap);
      DropFallsThrough(input, v, c.level, snap, Older(v, c), i, snap);
      OlderReadsAfter(v, c, snap, u);
      LayersAround(v, c, outputs, v', u, snap);
      assert Read(ContentsFrom(v', 0), u, snap) != Read(ContentsFrom(v, 0), u, snap);
    } else {
      forall u: UserKey, s: SequenceNumber | s >= snap
        ensures Read(ContentsFrom(v', 0), u, s) == Read(ContentsFrom(v, 0), u, s)
      {
        LayersAround(v, c, outputs, v', u, s);
        if !HasEntry(Newer(v, c), u, s) {
          NothingResurfaces(v, c, snap, input, u, s);
          assert Elements(input) == InputEntries(c);
        }
      }
    }
  }

  lemma NothingResurfaces(v: Version, c: Compaction, snap: SequenceNumber, input: seq<Entry>, u: UserKey,
                          s: SequenceNumber)
    requires VersionOk(v) && InputsOk(v, c) && snap < MAX_SEQUENCE && snap <= s
    requires Ordered(input) && UniqueSeqs(Older(v, c)) && NewerThan(Elements(input), Older(v, c))
    requires forall i | 0 <= i < |input| :: !Resurfaces(v, c, snap, input, i)
    requires !HasEntry(Newer(v, c), u, s)
    ensures Read(KeptAll(input, v, c.level, snap) + Older(v, c), u, s) == Read(Elements(input) + Older(v, c), u, s)
  {
    forall i | 0 <= i < |input| && Obsolete(input, i, v, c.level, snap) && IsNewest(Elements(input), u, s, input[i])
      ensures Read(Older(v, c), u, snap) == NotFound
    {
      NothingBehind(v, c, snap, input, i, u, s);
    }
    HidingNothingKeepsRead(input, v, c.level, snap, Older(v, c), u, s);
  }

  lemma NothingBehind(v: Version, c: Compaction, snap: SequenceNumber, input: seq<Entry>, i: nat, u: UserKey,
                      s: SequenceNumber)
    requires VersionOk(v) && InputsOk(v, c) && snap <= s && i < |input| && input[i].key.user == u
    requires Obsolete(input, i, v, c.level, snap) && !Resurfaces(v, c, snap, input, i)
    requires !HasEntry(Newer(v, c), u, s)
    ensures Read(Older(v, c), u, snap) == NotFound
  {
    OlderReadsAfter(v, c, snap, u);
    assert forall e | e in Newer(v, c) :: Qualifies(e, u, snap) ==> Qualifies(e, u, s);
  }

  /**
   A check on the chosen inputs that rules the failure out: no output-level file continues the user key on which the
   output level's own inputs end. AddBoundaryInputs would establish it, but SetupOtherInputs does not call it there.
   */
  lemma NoBoundaryMeansNoResurfacing(v: Version, c: Compaction, snap: SequenceNumber, input: seq<Entry>, i: nat)
    requires VersionOk(v) && InputsOk(v, c) && i < |input| && Elements(input) == InputEntries(c)
    requires NoBoundaryLeft(v[c.level + 1], c.inputs1)
    ensures !Resurfaces(v, c, snap, input, i)
  {
    var u := input[i].key.user;
    assert input[i] in InputEntries(c);
    assert LevelOk(v[c.level], c.level) && LevelOk(v[c.level + 1], c.level + 1);
    forall e | e in After(v, c) ensures e.key.user != u {
      var g :| Beside(v, c, g) && FollowsInputs(c, g) && e in g.entries;
      BoundaryWouldBeLeft(v, c, g, e, input[i]);
    }
    ReadNothing(After(v, c), u, snap);
  }

  lemma BoundaryWouldBeLeft(v: Version, c: Compaction, g: File, e: Entry, x: Entry)
    requires VersionOk(v) && InputsOk(v, c) && Beside(v, c, g) && FollowsInputs(c, g) && e in g.entries
    requires NoBoundaryLeft(v[c.level + 1], c.inputs1) && x in InputEntries(c)
    ensures e.key.user != x.key.user
  {
    assert LevelOk(v[c.level], c.level) && LevelOk(v[c.level + 1], c.level + 1);
    FileBounds(g, e);
    if f :| f in c.inputs0 && x in f.entries {
      BesideIsOneSided(v, c, g, x);
      FileBounds(f, x);
      assert !Meets(g, f, f);
    } else {
      var f :| f in c.inputs1 && x in f.entries;
      var k := OutputInputsEnd(v, c, g, f);
      FileBounds(f, x);
      NoSharedUserKey(x.key, f.largest, k, g, e.key);
    }
  }

  /** The output level's inputs end before a file that follows them. */
  lemma OutputInputsEnd(v: Version, c: Compaction, g: File, f: File) returns (k: InternalKey)
    requires VersionOk(v) && InputsOk(v, c) && Beside(v, c, g) && FollowsInputs(c, g)
    requires NoBoundaryLeft(v[c.level + 1], c.inputs1) && f in c.inputs1
    ensures Before(k, g.smallest) && !IsBoundary(g, k) && !Less(k, f.largest)
  {
    k := LargestExists(c.inputs1);
    assert Before(k, g.smallest) by {
      assert LevelOk(v[c.level + 1], c.level + 1);
      var m :| m in c.inputs1 && m.largest == k;
      var last := LastEntry(v[c.level + 1], c.inputs1, m);
      BesideIsOneSided(v, c, g, last);
    }
  }

  lemma LastEntry(files: seq<File>, chosen: seq<File>, m: File) returns (last: Entry)
    requires FilesOk(files) && Subset(chosen, files) && m in chosen
    ensures last in Contents(chosen) && last.key == m.largest
  {
    assert FileOk(m);
    last := m.entries[|m.entries| - 1];
    assert last in m.entries;
  }

  lemma NoSharedUserKey(x: InternalKey, end: InternalKey, k: InternalKey, g: File, e: InternalKey)
    requires (end == x || Before(x, end)) && !Less(k, end) && Before(k, g.smallest) && !IsBoundary(g, k)
    requires g.smallest == e || Before(g.smallest, e)
    ensures e.user != x.user
  {
  }

  // ---------------------------------------------------------------- the witness

  function Put(u: UserKey, n: SequenceNumber): Entry {
    Entry(InternalKey(u, n, TypeValue), [])
  }

  function Delete(u: UserKey, n: SequenceNumber): Entry {
    Entry(InternalKey(u, n, TypeDeletion), [])
  }

  function TableOf(number: nat, es: seq<Entry>): File
    requires es != []
  {
    File(number, 1, es[0].key, es[|es| - 1].key, es)
  }

  /**
   Level 1 holds key 1. Level 2 holds key 1 and a deletion of key 2 in one file, and the deleted value in the next.
   */
  function WitnessVersion(): Version {
    [[],
     [TableOf(4, [Put(1.0, 5)])],
     [TableOf(2, [Put(1.0, 4), Put(1.0, 1), Delete(2.0, 3)]), TableOf(3, [Put(2.0, 2)])],
     [], [], [], []]
  }

  lemma WitnessVersionOk()
    ensures VersionOk(WitnessVersion()) && AllSorted(WitnessVersion()) && NumbersBelow(WitnessVersion(), 5)
  {
    var v := WitnessVersion();
    WitnessLevelsOk(v);
    forall l, m | 0 <= l < m < NUM_LEVELS
      ensures NewerThan(Contents(v[l]), Contents(v[m])) && NoSharedNumber(v[l], v[m])
    {
      if l == 1 && m == 2 {
        WitnessLevelsApart(v);
      } else {
        assert v[l] == [] || v[m] == [];
      }
    }
  }

  lemma WitnessLevelsOk(v: Version)
    requires v == WitnessVersion()
    ensures LevelsOk(v) && AllSorted(v) && NumbersBelow(v, 5)
  {
    var a, f, g := v[1][0], v[2][0], v[2][1];
    assert FileOk(a) && FileOk(f) && FileOk(g);
    forall l | 0 <= l < NUM_LEVELS
      ensures LevelOk(v[l], l) && SortedBySmallest(v[l]) && forall h | h in v[l] :: h.number < 5
    {
      if l == 1 {
        assert v[l] == [a];
      } else if l == 2 {
        assert v[l] == [f, g];
      } else {
        assert v[l] == [];
      }
    }
  }

  lemma WitnessLevelsApart(v: Version)
    requires v == WitnessVersion()
    ensures NewerThan(Contents(v[1]), Contents(v[2])) && NoSharedNumber(v[1], v[2])
  {
    assert v[1] == [v[1][0]] && v[2] == [v[2][0], v[2][1]];
    assert forall e :: e in Contents(v[1]) ==> e == Put(1.0, 5);
    assert forall e :: e in Contents(v[2]) ==> e in v[2][0].entries || e in v[2][1].entries;
  }

  /**
   The failure is real: on a version that meets the invariant, with exactly the inputs the overlap rules pick, the
   compaction drops the deletion of key 2, leaves out the file with the older value, and the value comes back.
   */
  lemma DeletedValueComesBack()
    ensures var v := WitnessVersion();
            var c := Compaction(1, v[1], Overlapping(v[2], Some(1.0), Some(1.0)), []);
            var input := [Put(1.0, 5), Put(1.0, 4), Put(1.0, 1), Delete(2.0, 3)];
            var outputs := [TableOf(5, [Put(1.0, 5)])];
            && VersionOk(v) && InputsOk(v, c) && NoBoundaryLeft(v[1], c.inputs0) && c.inputs1 == [v[2][0]]
            && CompactionResult(v, c, 5, input, outputs, 5)
            && Read(ContentsFrom(v, 0), 2.0, 5) == NotFound
            && Read(ContentsFrom(ApplyEdit(v, CompactionEdit(c, outputs)), 0), 2.0, 5) == Found([])
  {
    var v := WitnessVersion();
    var c := Compaction(1, v[1], Overlapping(v[2], Some(1.0), Some(1.0)), []);
    var input := [Put(1.0, 5), Put(1.0, 4), Put(1.0, 1), Delete(2.0, 3)];
    var outputs := [TableOf(5, [Put(1.0, 5)])];
    WitnessCompaction(v, c, input, outputs, ApplyEdit(v, CompactionEdit(c, outputs)));
    var n := Delete(2.0, 3);
    VersionHasUniqueSeqs(v, 0);
    ReadIs(ContentsFrom(v, 0), 2.0, 5, n);
  }

  lemma WitnessCompaction(v: Version, c: Compaction, input: seq<Entry>, outputs: seq<File>, v': Version)
    requires v == WitnessVersion() && c == Compaction(1, v[1], Overlapping(v[2], Some(1.0), Some(1.0)), [])
    requires input == [Put(1.0, 5), Put(1.0, 4), Put(1.0, 1), Delete(2.0, 3)] && outputs == [TableOf(5, [Put(1.0, 5)])]
    requires v' == ApplyEdit(v, CompactionEdit(c, outputs))
    ensures VersionOk(v) && InputsOk(v, c) && NoBoundaryLeft(v[1], c.inputs0) && c.inputs1 == [v[2][0]]
    ensures CompactionResult(v, c, 5, input, outputs, 5)
    ensures IsNewest(ContentsFrom(v, 0), 2.0, 5, Delete(2.0, 3)) && Read(ContentsFrom(v', 0), 2.0, 5) == Found([])
  {
    WitnessVersionOk();
    WitnessInputs(v, c);
    WitnessResult(v, c, input, outputs);
    ResultFits(v, c, 5, input, outputs, 5);
    CompactionEditMeans(v, c, outputs);
    CompactionKeepsInvariant(v, c, outputs);
    VersionHasUniqueSeqs(v', 0);
    WitnessContents(v, c, outputs, v');
    ReadIs(ContentsFrom(v', 0), 2.0, 5, Put(2.0, 2));
  }

  lemma WitnessInputs(v: Version, c: Compaction)
    requires v == WitnessVersion() && c == Compaction(1, v[1], Overlapping(v[2], Some(1.0), Some(1.0)), [])
    ensures c.inputs1 == [v[2][0]] && InputsOk(v, c) && NoBoundaryLeft(v[1], c.inputs0)
  {
    var a, f, g := v[1][0], v[2][0], v[2][1];
    assert v[1] == [a] && v[2] == [f, g];
    WitnessOverlap(f, g);
    WitnessShares(a, f, g);
  }

  lemma WitnessOverlap(f: File, g: File)
    requires f.smallest.user == 1.0 && f.largest.user == 2.0 && g.smallest.user == g.largest.user == 2.0
    ensures Overlapping([f, g], Some(1.0), Some(1.0)) == [f]
  {
    var files := [f, g];
    assert files[..1] == [f] && files[..0] == [] && files[..2] == files;
    OverlappingStep(files, 0, Some(1.0), Some(1.0));
    OverlappingStep(files, 1, Some(1.0), Some(1.0));
  }

  lemma WitnessShares(a: File, f: File, g: File)
    requires a.smallest == a.largest && a.smallest.user == 1.0
    requires f.smallest.user == 1.0 && f.largest.user == 2.0 && g.smallest.user == g.largest.user == 2.0
    ensures SharesOk([a], [f, g], [a], [f]) && NoBoundaryLeft([a], [a])
  {
    assert a in [a] && Meets(f, a, a);
  }

  lemma WitnessResult(v: Version, c: Compaction, input: seq<Entry>, outputs: seq<File>)
    requires v == WitnessVersion() && c.level == 1 && c.inputs0 == v[1] && c.inputs1 == [v[2][0]]
    requires input == [Put(1.0, 5), Put(1.0, 4), Put(1.0, 1), Delete(2.0, 3)]
    requires outputs == [TableOf(5, [Put(1.0, 5)])]
    ensures CompactionResult(v, c, 5, input, outputs, 5)
  {
    assert IsBaseLevel(v, 1, 2.0) by {
      assert forall l | 3 <= l < NUM_LEVELS :: v[l] == [];
    }
    assert !Dropped(input, 0, v, 1, 5) && Dropped(input, 1, v, 1, 5);
    assert Dropped(input, 2, v, 1, 5) && Dropped(input, 3, v, 1, 5);
    assert Kept(input, 1, v, 1, 5) == Kept(input, 0, v, 1, 5) + [input[0]];
    assert Kept(input, 4, v, 1, 5) == Kept(input, 3, v, 1, 5) == Kept(input, 2, v, 1, 5) == Kept(input, 1, v, 1, 5);
    assert outputs[..0] == [];
    assert Flatten(outputs[..0]) == [];
    forall e ensures e in Elements(input) <==> e in InputEntries(c) {
      assert v[1] == [v[1][0]];
      assert e in Contents(c.inputs0) <==> e in v[1][0].entries;
      assert e in Contents(c.inputs1) <==> e in v[2][0].entries;
    }
  }

  lemma WitnessContents(v: Version, c: Compaction, outputs: seq<File>, v': Version)
    requires v == WitnessVersion() && c.level == 1 && c.inputs0 == v[1] && c.inputs1 == [v[2][0]]
    requires outputs == [TableOf(5, [Put(1.0, 5)])] && Replaced(v, c, outputs, v')
    ensures IsNewest(ContentsFrom(v, 0), 2.0, 5, Delete(2.0, 3))
    ensures IsNewest(ContentsFrom(v', 0), 2.0, 5, Put(2.0, 2))
  {
    var a, f, g := v[1][0], v[2][0], v[2][1];
    assert v[1] == [a] && v[2] == [f, g];
    assert f in v[2] && g in v[2] && Delete(2.0, 3) in f.entries && Put(2.0, 2) in g.entries && f.number != g.number;
    assert Delete(2.0, 3) in Contents(v[2]);
    assert forall m | 0 <= m < NUM_LEVELS && m != c.level && m != c.level + 1 :: v[m] == [] && v'[m] == [];
    assert g in v[c.level + 1] && g !in c.inputs1;
    assert g in v'[c.level + 1] && Put(2.0, 2) in Contents(v'[c.level + 1]);
    forall x | x in ContentsFrom(v, 0) ensures x in f.entries || x in g.entries || x in a.entries {
      var m, h :| 0 <= m < NUM_LEVELS && h in v[m] && x in h.entries;
    }
    assert forall h :: h !in v'[c.level];
    assert forall e | e in Contents(v'[c.level]) :: false;
    forall e | e in Contents(v'[c.level + 1]) ensures e in g.entries || e in outputs[0].entries {
      var h :| h in v'[c.level + 1] && e in h.entries;
      assert (h in v[c.level + 1] && h !in c.inputs1) || h in outputs;
    }
    forall x | x in ContentsFrom(v', 0) ensures x in g.entries || x in outputs[0].entries {
      var m :| 0 <= m < NUM_LEVELS && x in Contents(v'[m]);
    }
  }
}
