/**
 What installing a flush, a trivial move or a compaction does to a version: the version invariant is kept, and the
 permitted reads are kept exactly when no dropped deletion was hiding an entry beside the inputs.
 */
module Rewrites {
  import opened Keys
  import opened Reads
  import opened Versions
  import opened Inputs
  import opened Selection
  import opened Compacting
  import opened VersionBuilder

  ghost predicate AllSorted(v: Version) {
    forall l | 0 <= l < NUM_LEVELS :: SortedBySmallest(v[l])
  }

  // ---------------------------------------------------------------- the edits

  /**
   AddInputDeletions and the additions of InstallCompactionResults; with outputs == inputs0 it is the trivial move.
   */
  function CompactionEdit(c: Compaction, outputs: seq<File>): VersionEdit {
    VersionEdit((set f | f in c.inputs0 :: (c.level, f.number)) + (set f | f in c.inputs1 :: (c.level + 1, f.number)),
                seq(|outputs|, i requires 0 <= i < |outputs| => (c.level + 1, outputs[i])))
  }

  function FlushEdit(level: nat, f: File): VersionEdit {
    VersionEdit({}, [(level, f)])
  }

  /** Output files that may replace the inputs: cut from the inputs' entries, and not reusing a number that stays. */
  ghost predicate OutputsFit(v: Version, c: Compaction, outputs: seq<File>) {
    && FilesOk(outputs) && SortedDisjoint(outputs) && DistinctNumbers(outputs)
    && Contents(outputs) <= Contents(c.inputs0) + Contents(c.inputs1)
    && forall o, l, g | o in outputs && 0 <= l < NUM_LEVELS && g in v[l] && g.number == o.number ::
      l == c.level && g in c.inputs0
  }

  /** v' is v with the inputs of c replaced by the outputs, one level down. */
  ghost predicate Replaced(v: Version, c: Compaction, outputs: seq<File>, v': Version)
    requires c.level + 1 < NUM_LEVELS
  {
    && (forall f :: f in v'[c.level] <==> f in v[c.level] && f !in c.inputs0)
    && (forall f :: f in v'[c.level + 1] <==> (f in v[c.level + 1] && f !in c.inputs1) || f in outputs)
    && (forall l | 0 <= l < NUM_LEVELS && l != c.level && l != c.level + 1 :: v'[l] == v[l])
    && SortedBySmallest(v'[c.level]) && SortedBySmallest(v'[c.level + 1])
  }

  lemma SameNumberSameFile(files: seq<File>, f: File, g: File)
    requires DistinctNumbers(files) && f in files && g in files && f.number == g.number
    ensures f == g
  {
    var i :| 0 <= i < |files| && files[i] == f;
    var j :| 0 <= j < |files| && files[j] == g;
  }

  lemma DeletedFromLevel(files: seq<File>, inputs: seq<File>, f: File)
    requires DistinctNumbers(files) && Subset(inputs, files) && f in files
    ensures f in inputs <==> exists g :: g in inputs && g.number == f.number
  {
    if g :| g in inputs && g.number == f.number {
      SameNumberSameFile(files, f, g);
    }
  }

  lemma UntouchedLevel(v: Version, e: VersionEdit, l: nat)
    requires l < NUM_LEVELS && SortedBySmallest(v[l]) && AddedDistinct(e.added)
    requires (forall d | d in e.deleted :: d.0 != l) && (forall a | a in e.added :: a.0 != l)
    ensures ApplyEdit(v, e)[l] == v[l]
  {
    ApplyEditMeans(v, e, l);
    SortedIsUnique(ApplyEdit(v, e)[l], v[l]);
  }

  lemma EditAdds(c: Compaction, outputs: seq<File>)
    requires DistinctNumbers(outputs)
    ensures AddedDistinct(CompactionEdit(c, outputs).added)
    ensures forall l: nat, f :: (l, f) in CompactionEdit(c, outputs).added <==> l == c.level + 1 && f in outputs
  {
    var added := CompactionEdit(c, outputs).added;
    forall o | o in outputs ensures (c.level + 1, o) in added {
      var i :| 0 <= i < |outputs| && outputs[i] == o;
      assert added[i] == (c.level + 1, o);
    }
  }

  /** The level the inputs leave. */
  lemma InputLevelAfter(v: Version, c: Compaction, outputs: seq<File>)
    requires c.level + 1 < NUM_LEVELS && LevelOk(v[c.level], c.level) && SortedBySmallest(v[c.level])
    requires Subset(c.inputs0, v[c.level]) && DistinctNumbers(outputs)
    ensures var after := ApplyEdit(v, CompactionEdit(c, outputs))[c.level];
            SortedBySmallest(after) && forall f :: f in after <==> f in v[c.level] && f !in c.inputs0
  {
    var e := CompactionEdit(c, outputs);
    EditAdds(c, outputs);
    ApplyEditMeans(v, e, c.level);
    forall f | f in v[c.level] ensures (c.level, f.number) in e.deleted <==> f in c.inputs0 {
      DeletedFromLevel(v[c.level], c.inputs0, f);
    }
  }

  /** The level the outputs join. */
  lemma OutputLevelAfter(v: Version, c: Compaction, outputs: seq<File>)
    requires c.level + 1 < NUM_LEVELS && LevelOk(v[c.level + 1], c.level + 1) && SortedBySmallest(v[c.level + 1])
    requires Subset(c.inputs1, v[c.level + 1]) && DistinctNumbers(outputs)
    requires forall o, g | o in outputs && g in v[c.level + 1] :: g.number != o.number
    ensures var after := ApplyEdit(v, CompactionEdit(c, outputs))[c.level + 1];
            SortedBySmallest(after) && forall f :: f in after <==>
              (f in v[c.level + 1] && f !in c.inputs1) || f in outputs
  {
    var e := CompactionEdit(c, outputs);
    EditAdds(c, outputs);
    ApplyEditMeans(v, e, c.level + 1);
    forall f | f in v[c.level + 1] ensures (c.level + 1, f.number) in e.deleted <==> f in c.inputs1 {
      DeletedFromLevel(v[c.level + 1], c.inputs1, f);
    }
  }

  lemma CompactionEditMeans(v: Version, c: Compaction, outputs: seq<File>)
    requires VersionOk(v) && AllSorted(v) && InputsOk(v, c) && OutputsFit(v, c, outputs)
    ensures Replaced(v, c, outputs, ApplyEdit(v, CompactionEdit(c, outputs)))
  {
    assert LevelOk(v[c.level], c.level) && LevelOk(v[c.level + 1], c.level + 1);
    OutputsAreNewBelow(v, c, outputs);
    InputLevelAfter(v, c, outputs);
    OutputLevelAfter(v, c, outputs);
    OtherLevelsAfter(v, c, outputs);
  }

  lemma OutputsAreNewBelow(v: Version, c: Compaction, outputs: seq<File>)
    requires c.level + 1 < NUM_LEVELS && OutputsFit(v, c, outputs)
    ensures forall o, g | o in outputs && g in v[c.level + 1] :: g.number != o.number
  {
  }

  lemma OtherLevelsAfter(v: Version, c: Compaction, outputs: seq<File>)
    requires c.level + 1 < NUM_LEVELS && AllSorted(v) && DistinctNumbers(outputs)
    ensures forall l | 0 <= l < NUM_LEVELS && l != c.level && l != c.level + 1 ::
              ApplyEdit(v, CompactionEdit(c, outputs))[l] == v[l]
  {
    EditAdds(c, outputs);
    forall l | 0 <= l < NUM_LEVELS && l != c.level && l != c.level + 1
      ensures ApplyEdit(v, CompactionEdit(c, outputs))[l] == v[l]
    {
      UntouchedLevel(v, CompactionEdit(c, outputs), l);
    }
  }

  // ---------------------------------------------------------------- the version invariant

  /** Two files of one level above 0 do not overlap, as ranges of internal keys. */
  predicate Apart(f: File, g: File) {
    Before(f.largest, g.smallest) || Before(g.largest, f.smallest)
  }

  /** A sorted list whose files are pairwise apart is a sorted, disjoint level. */
  lemma SortedLevelFromPairs(files: seq<File>, l: nat)
    requires 0 < l && FilesOk(files) && SortedBySmallest(files)
    requires forall f, g | f in files && g in files && f != g :: f.number != g.number && Apart(f, g)
    ensures LevelOk(files, l)
  {
    forall i, j | 0 <= i < j < |files|
      ensures files[i].number != files[j].number && Before(files[i].largest, files[j].smallest)
    {
      assert BySmallest(files[i], files[j]);
      assert files[i] in files && files[j] in files && files[i] != files[j];
      FileBounds(files[i], files[i].entries[0]);
      FileBounds(files[j], files[j].entries[0]);
    }
  }

  lemma SortedHasDistinctNumbers(files: seq<File>, all: seq<File>)
    requires SortedBySmallest(files) && DistinctNumbers(all) && Subset(files, all)
    ensures DistinctNumbers(files)
  {
    forall i, j | 0 <= i < j < |files| ensures files[i].number != files[j].number {
      assert BySmallest(files[i], files[j]);
      if files[i].number == files[j].number {
        assert files[i] in files && files[j] in files;
        SameNumberSameFile(all, files[i], files[j]);
      }
    }
  }

  /** A sublist of a level is a level. */
  lemma SubLevelOk(files: seq<File>, all: seq<File>, l: nat)
    requires LevelOk(all, l) && SortedBySmallest(files) && Subset(files, all)
    ensures LevelOk(files, l)
  {
    SortedHasDistinctNumbers(files, all);
    if l > 0 {
      forall f, g | f in files && g in files && f != g ensures f.number != g.number && Apart(f, g) {
        FileOrder(all, f, g);
        if f.number == g.number {
          SameNumberSameFile(all, f, g);
        }
      }
      SortedLevelFromPairs(files, l);
    }
  }

  /** A file of the output level that is not an input lies on one side of every input entry. */
  lemma InputsOnOneSide(files1: seq<File>, inputs0: seq<File>, inputs1: seq<File>, g: File)
    requires FilesOk(inputs0) && FilesOk(files1) && SortedDisjoint(files1) && Subset(inputs1, files1)
    requires inputs0 != [] && Covered(files1, inputs0, inputs1) && Touching(inputs0, inputs1)
    requires g in files1 && g !in inputs1
    ensures || (forall e | e in Contents(inputs0) + Contents(inputs1) :: Before(e.key, g.smallest))
            || (forall e | e in Contents(inputs0) + Contents(inputs1) :: Before(g.largest, e.key))
  {
    if h :| h in inputs0 && g.largest.user >= h.smallest.user {
      // g meets no input, so it starts after all of them end.
      forall e | e in Contents(inputs0) + Contents(inputs1) ensures Before(e.key, g.smallest) {
        InputBeforeFile(files1, inputs0, inputs1, g, h, e);
      }
    } else {
      forall e | e in Contents(inputs0) + Contents(inputs1) ensures Before(g.largest, e.key) {
        InputAfterFile(files1, inputs0, inputs1, g, e);
      }
    }
  }

  lemma InputBeforeFile(files1: seq<File>, inputs0: seq<File>, inputs1: seq<File>, g: File, h: File, e: Entry)
    requires FilesOk(inputs0) && FilesOk(files1) && SortedDisjoint(files1) && Subset(inputs1, files1)
    requires Covered(files1, inputs0, inputs1) && Touching(inputs0, inputs1)
    requires g in files1 && g !in inputs1 && h in inputs0 && g.largest.user >= h.smallest.user
    requires e in Contents(inputs0) + Contents(inputs1)
    ensures Before(e.key, g.smallest)
  {
    if f :| f in inputs0 && e in f.entries {
      FileBounds(f, e);
      assert !Meets(g, h, f);
    } else {
      var f :| f in inputs1 && e in f.entries;
      FileBounds(f, e);
      FileOrder(files1, f, g);
      var a, b :| a in inputs0 && b in inputs0 && Meets(f, a, b);
      assert !Meets(g, h, b);
    }
  }

  lemma InputAfterFile(files1: seq<File>, inputs0: seq<File>, inputs1: seq<File>, g: File, e: Entry)
    requires FilesOk(inputs0) && FilesOk(files1) && SortedDisjoint(files1) && Subset(inputs1, files1)
    requires Touching(inputs0, inputs1)
    requires g in files1 && g !in inputs1 && forall h | h in inputs0 :: g.largest.user < h.smallest.user
    requires e in Contents(inputs0) + Contents(inputs1)
    ensures Before(g.largest, e.key)
  {
    if f :| f in inputs0 && e in f.entries {
      FileBounds(f, e);
    } else {
      var f :| f in inputs1 && e in f.entries;
      FileBounds(f, e);
      FileOrder(files1, f, g);
      FileBounds(g, g.entries[0]);
      var a, b :| a in inputs0 && b in inputs0 && Meets(f, a, b);
    }
  }

  /** An output lies apart from every file of its level that was not rewritten. */
  lemma OutputApart(files1: seq<File>, c: Compaction, outputs: seq<File>, o: File, g: File)
    requires FilesOk(c.inputs0) && FilesOk(files1) && SortedDisjoint(files1) && Subset(c.inputs1, files1)
    requires c.inputs0 != [] && Covered(files1, c.inputs0, c.inputs1) && Touching(c.inputs0, c.inputs1)
    requires FilesOk(outputs) && Contents(outputs) <= Contents(c.inputs0) + Contents(c.inputs1)
    requires o in outputs && g in files1 && g !in c.inputs1
    ensures Apart(o, g)
  {
    InputsOnOneSide(files1, c.inputs0, c.inputs1, g);
    var first, last := o.entries[0], o.entries[|o.entries| - 1];
    assert first in o.entries && last in o.entries;
    assert first in Contents(outputs) && last in Contents(outputs);
  }

  lemma OutputLevelOk(v: Version, c: Compaction, outputs: seq<File>, v': Version)
    requires VersionOk(v) && InputsOk(v, c) && OutputsFit(v, c, outputs) && Replaced(v, c, outputs, v')
    ensures LevelOk(v'[c.level + 1], c.level + 1)
  {
    assert LevelOk(v[c.level], c.level) && LevelOk(v[c.level + 1], c.level + 1);
    var files := v'[c.level + 1];
    forall f, g | f in files && g in files && f != g ensures f.number != g.number && Apart(f, g) {
      if f in outputs && g in outputs {
        FileOrder(outputs, f, g);
        if f.number == g.number {
          SameNumberSameFile(outputs, f, g);
        }
      } else if f in outputs {
        OutputApart(v[c.level + 1], c, outputs, f, g);
      } else if g in outputs {
        OutputApart(v[c.level + 1], c, outputs, g, f);
      } else {
        FileOrder(v[c.level + 1], f, g);
        if f.number == g.number {
          SameNumberSameFile(v[c.level + 1], f, g);
        }
      }
    }
    SortedLevelFromPairs(files, c.level + 1);
  }

  /** Entries may only sink: whatever is in a level of v' was in that level, or (at the output level) one above it. */
  lemma EntriesSink(v: Version, c: Compaction, outputs: seq<File>, v': Version, l: nat)
    requires l < NUM_LEVELS && InputsOk(v, c) && OutputsFit(v, c, outputs) && Replaced(v, c, outputs, v')
    ensures Contents(v'[l]) <= Contents(v[l]) + (if l == c.level + 1 then Contents(c.inputs0) else iset{})
  {
    if l == c.level + 1 {
      forall e | e in Contents(v'[l])
        ensures e in Contents(v[l]) + Contents(c.inputs0)
      {
        var f :| f in v'[l] && e in f.entries;
        if f in outputs {
          assert e in Contents(outputs);
          InputsAreAtLevel(v[l], c.inputs1, e);
        } else {
          assert f in v[l];
        }
      }
    } else {
      forall e | e in Contents(v'[l])
        ensures e in Contents(v[l])
      {
        var f :| f in v'[l] && e in f.entries;
        assert f in v[l];
      }
    }
  }

  lemma InputsAreAtLevel(files: seq<File>, inputs: seq<File>, e: Entry)
    requires Subset(inputs, files)
    ensures e in Contents(inputs) ==> e in Contents(files)
  {
    if e in Contents(inputs) {
      var g :| g in inputs && e in g.entries;
      assert g in files;
    }
  }

  lemma NewerThanParts(A: iset<Entry>, A': iset<Entry>, B: iset<Entry>, B': iset<Entry>)
    requires NewerThan(A, B) && A' <= A && B' <= B
    ensures NewerThan(A', B')
  {
  }

  /** Between the two levels of the compaction: what stays is newer than what was there and than what moved. */
  lemma CompactedLevelsNewer(v: Version, c: Compaction, outputs: seq<File>, v': Version)
    requires VersionOk(v) && InputsOk(v, c) && OutputsFit(v, c, outputs) && Replaced(v, c, outputs, v')
    ensures NewerThan(Contents(v'[c.level]), Contents(v'[c.level + 1]))
  {
    EntriesSink(v, c, outputs, v', c.level + 1);
    assert NewerThan(Contents(v[c.level]), Contents(v[c.level + 1]));
    forall a, b | a in Contents(v'[c.level]) && b in Contents(v'[c.level + 1])
      ensures a.key.user == b.key.user ==> a.key.sequence > b.key.sequence
    {
      var f :| f in v'[c.level] && a in f.entries;
      if b in Contents(c.inputs0) {
        var g :| g in c.inputs0 && b in g.entries;
        assert NewerThan(Elements(f.entries), Elements(g.entries));
        assert a in Elements(f.entries) && b in Elements(g.entries);
      } else {
        assert a in Contents(v[c.level]) && b in Contents(v[c.level + 1]);
      }
    }
  }

  lemma InputsWithin(v: Version, c: Compaction)
    requires InputsOk(v, c)
    ensures Contents(c.inputs0) <= Contents(v[c.level]) && Contents(c.inputs1) <= Contents(v[c.level + 1])
  {
  }

  lemma RewriteKeepsOrder(v: Version, c: Compaction, outputs: seq<File>, v': Version)
    requires VersionOk(v) && InputsOk(v, c) && OutputsFit(v, c, outputs) && Replaced(v, c, outputs, v')
    ensures LevelsNewer(v')
  {
    forall l, m | 0 <= l < m < NUM_LEVELS ensures NewerThan(Contents(v'[l]), Contents(v'[m])) {
      if l == c.level && m == c.level + 1 {
        CompactedLevelsNewer(v, c, outputs, v');
      } else {
        EntriesSink(v, c, outputs, v', l);
        EntriesSink(v, c, outputs, v', m);
        InputsWithin(v, c);
        assert NewerThan(Contents(v[l]), Contents(v[m]));
        assert c.level < m ==> NewerThan(Contents(v[c.level]), Contents(v[m]));
        assert l < c.level ==> NewerThan(Contents(v[l]), Contents(v[c.level]));
        SunkLevelsNewer(v, c, l, m, Contents(v'[l]), Contents(v'[m]));
      }
    }
  }

  lemma SunkLevelsNewer(v: Version, c: Compaction, l: nat, m: nat, A: iset<Entry>, B: iset<Entry>)
    requires c.level + 1 < NUM_LEVELS && l < m < NUM_LEVELS && !(l == c.level && m == c.level + 1)
    requires NewerThan(Contents(v[l]), Contents(v[m]))
    requires c.level < m ==> NewerThan(Contents(v[c.level]), Contents(v[m]))
    requires l < c.level ==> NewerThan(Contents(v[l]), Contents(v[c.level]))
    requires A <= Contents(v[l]) + (if l == c.level + 1 then Contents(v[c.level]) else iset{})
    requires B <= Contents(v[m]) + (if m == c.level + 1 then Contents(v[c.level]) else iset{})
    ensures NewerThan(A, B)
  {
    forall a, b | a in A && b in B ensures a.key.user == b.key.user ==> a.key.sequence > b.key.sequence {
      assert a in Contents(v[l]) || (l == c.level + 1 && a in Contents(v[c.level]));
      assert b in Contents(v[m]) || (m == c.level + 1 && b in Contents(v[c.level]));
    }
  }

  lemma RewriteKeepsNumbers(v: Version, c: Compaction, outputs: seq<File>, v': Version)
    requires VersionOk(v) && InputsOk(v, c) && OutputsFit(v, c, outputs) && Replaced(v, c, outputs, v')
    ensures LevelsDistinct(v')
  {
    forall l, m | 0 <= l < m < NUM_LEVELS ensures NoSharedNumber(v'[l], v'[m]) {
      assert NoSharedNumber(v[l], v[m]);
      forall f, g | f in v'[l] && g in v'[m] ensures f.number != g.number {
        if f in outputs && l == c.level + 1 {
          assert g in v[m];
        } else if g in outputs && m == c.level + 1 {
          assert f in v[l];
        } else {
          assert f in v[l] && g in v[m];
        }
      }
    }
  }

  /** Installing a compaction (or a trivial move) keeps the version invariant. */
  lemma CompactionKeepsInvariant(v: Version, c: Compaction, outputs: seq<File>)
    requires VersionOk(v) && AllSorted(v) && InputsOk(v, c) && OutputsFit(v, c, outputs)
    ensures var v' := ApplyEdit(v, CompactionEdit(c, outputs)); VersionOk(v') && AllSorted(v')
  {
    var v' := ApplyEdit(v, CompactionEdit(c, outputs));
    CompactionEditMeans(v, c, outputs);
    forall l | 0 <= l < NUM_LEVELS ensures LevelOk(v'[l], l) {
      assert LevelOk(v[l], l);
      if l == c.level {
        SubLevelOk(v'[l], v[l], l);
      } else if l == c.level + 1 {
        OutputLevelOk(v, c, outputs, v');
      }
    }
    RewriteKeepsOrder(v, c, outputs, v');
    RewriteKeepsNumbers(v, c, outputs, v');
  }
}
