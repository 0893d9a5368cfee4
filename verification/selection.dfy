/**
 The version set's choices: which files a compaction reads (PickCompaction, CompactRange, SetupOtherInputs) and the
 level a flushed memtable may go to (PickLevelForMemTableOutput), with the guarantees later proofs rest on.
 */
module Selection {
  import opened Keys
  import opened Reads
  import opened Versions
  import opened Inputs

  datatype Compaction = Compaction(level: nat, inputs0: seq<File>, inputs1: seq<File>, grandparents: seq<File>)

  function TotalFileSize(files: seq<File>): nat {
    if files == [] then 0 else files[0].size + TotalFileSize(files[1..])
  }

  lemma {:induction false} TotalFileSizeStep(files: seq<File>, f: File)
    ensures TotalFileSize(files + [f]) == TotalFileSize(files) + f.size
  {
    if files != [] {
      assert (files + [f])[1..] == files[1..] + [f];
      TotalFileSizeStep(files[1..], f);
    }
  }

  /** f meets the user-key range from the start of g to the end of h. */
  predicate Meets(f: File, g: File, h: File) {
    f.largest.user >= g.smallest.user && f.smallest.user <= h.largest.user
  }

  /** Every file of the list that meets the user-key range of the chosen files is chosen. */
  ghost predicate UserClosed(files: seq<File>, chosen: seq<File>) {
    forall f, g, h {:trigger Meets(f, g, h)} | f in files && g in chosen && h in chosen && Meets(f, g, h) :: f in chosen
  }

  /** A legal starting choice at a level. */
  ghost predicate ChoiceOk(files: seq<File>, level: nat, chosen: seq<File>) {
    && chosen != []
    && Subset(chosen, files)
    && (if level == 0 then UserClosed(files, chosen) else Convex(files, chosen))
  }

  /** Whatever stays behind at the input level is newer, per user key, than whatever leaves it. */
  ghost predicate RemainingNewer(files: seq<File>, chosen: seq<File>) {
    forall f, g {:trigger NewerThan(Elements(f.entries), Elements(g.entries))}
      | f in files && f !in chosen && g in chosen :: NewerThan(Elements(f.entries), Elements(g.entries))
  }

  /** Every file of the output level that meets the user-key range of the level's inputs is an input too. */
  ghost predicate Covered(files: seq<File>, inputs0: seq<File>, inputs1: seq<File>) {
    forall f, g, h {:trigger Meets(f, g, h)} | f in files && g in inputs0 && h in inputs0 && Meets(f, g, h) ::
      f in inputs1
  }

  /** No file of the next level is an input without meeting the range of the level's inputs. */
  ghost predicate Touching(inputs0: seq<File>, inputs1: seq<File>) {
    forall f | f in inputs1 :: exists g, h :: g in inputs0 && h in inputs0 && Meets(f, g, h)
  }

  ghost predicate SharesOk(files0: seq<File>, files1: seq<File>, inputs0: seq<File>, inputs1: seq<File>) {
    && inputs0 != []
    && Subset(inputs0, files0) && Subset(inputs1, files1)
    && RemainingNewer(files0, inputs0)
    && Covered(files1, inputs0, inputs1)
    && Touching(inputs0, inputs1)
  }

  /** What SetupOtherInputs establishes about a compaction's inputs. */
  ghost predicate InputsOk(v: Version, c: Compaction) {
    c.level + 1 < NUM_LEVELS && SharesOk(v[c.level], v[c.level + 1], c.inputs0, c.inputs1)
  }

  /** The compaction's grandparents: exactly the files of the level after next that meet the range of all inputs. */
  ghost predicate GrandparentsOk(v: Version, level: nat, all: seq<File>, files: seq<File>) {
    if level + 2 < NUM_LEVELS && |v| == NUM_LEVELS then
      Subset(files, v[level + 2]) && Covered(v[level + 2], all, files) && Touching(all, files)
    else
      files == []
  }

  /** The shortest prefix that reaches the limit, or everything. */
  predicate CutAt(files: seq<File>, limit: nat, n: nat) {
    && 0 < n <= |files|
    && (n > 1 ==> TotalFileSize(files[..n - 1]) < limit)
    && (n < |files| ==> TotalFileSize(files[..n]) >= limit)
  }

  /** All of the level-0 files that overlap the range; elsewhere those of them that come before the cut. */
  ghost predicate ManualInputsOk(files: seq<File>, level: nat, lo: Bound, hi: Bound, limit: nat, chosen: seq<File>) {
    var all := Overlapping(files, lo, hi);
    if level == 0 then Subset(all, chosen) else exists n: nat :: CutAt(all, limit, n) && Subset(all[..n], chosen)
  }

  // ---------------------------------------------------------------- which files a compaction takes

  /** What GetOverlappingInputs gives for a user-key range. */
  ghost predicate IsOverlap(files: seq<File>, level: nat, lo: UserKey, hi: UserKey, r: seq<File>) {
    if level == 0 then IsClosure(files, Some(lo), Some(hi), r) else r == Overlapping(files, Some(lo), Some(hi))
  }

  /** The same for the range of some files. */
  ghost predicate IsOverlapOf(files: seq<File>, level: nat, some: seq<File>, r: seq<File>) {
    exists a, b :: IsSmallestKey(some, a) && IsLargestKey(some, b) && IsOverlap(files, level, a.user, b.user, r)
  }

  /** The level's files over the range of all inputs, and their boundary files. */
  ghost predicate IsExpansion(files: seq<File>, level: nat, all: seq<File>, r: seq<File>) {
    exists o :: IsOverlapOf(files, level, all, o) && IsBoundaryChain(files, o, r)
  }

  /**
   The inputs grow to the level's expansion exactly if that is more, keeps within the limit, and leaves the next level's
   share as it is.
   */
  ghost predicate IsGrown(v: Version, level: nat, maxFileSize: nat, inputs0: seq<File>, inputs1: seq<File>,
                          r0: seq<File>, r1: seq<File>)
    requires level + 1 < NUM_LEVELS == |v|
  {
    if inputs1 == [] then r0 == inputs0 && r1 == inputs1
    else exists more :: IsExpansion(v[level], level, inputs0 + inputs1, more)
                        && GrowsInto(v, level, maxFileSize, inputs0, inputs1, more, r0, r1)
  }

  ghost predicate GrowsInto(v: Version, level: nat, maxFileSize: nat, inputs0: seq<File>, inputs1: seq<File>,
                            more: seq<File>, r0: seq<File>, r1: seq<File>)
    requires level + 1 < NUM_LEVELS == |v|
  {
    if |more| > |inputs0| && TotalFileSize(inputs1) + TotalFileSize(more) < 25 * maxFileSize then
      exists share :: IsOverlapOf(v[level + 1], level + 1, more, share)
        && if |share| == |inputs1| then r0 == more && r1 == share else r0 == inputs0 && r1 == inputs1
    else r0 == inputs0 && r1 == inputs1
  }

  /** What SetupOtherInputs makes of the files that were chosen. */
  ghost predicate IsCompleted(v: Version, level: nat, maxFileSize: nat, chosen: seq<File>, r0: seq<File>, r1: seq<File>)
    requires level + 1 < NUM_LEVELS == |v|
  {
    exists inputs0, inputs1 ::
      && IsBoundaryChain(v[level], chosen, inputs0) && IsOverlapOf(v[level + 1], level + 1, inputs0, inputs1)
      && IsGrown(v, level, maxFileSize, inputs0, inputs1, r0, r1)
  }

  lemma CompletedBy(v: Version, level: nat, maxFileSize: nat, chosen: seq<File>, inputs0: seq<File>,
                    inputs1: seq<File>, r0: seq<File>, r1: seq<File>)
    requires level + 1 < NUM_LEVELS == |v|
    requires IsBoundaryChain(v[level], chosen, inputs0) && IsOverlapOf(v[level + 1], level + 1, inputs0, inputs1)
    requires IsGrown(v, level, maxFileSize, inputs0, inputs1, r0, r1)
    ensures IsCompleted(v, level, maxFileSize, chosen, r0, r1)
  {
  }

  // ---------------------------------------------------------------- shape of the choices

  lemma {:induction false} OverlappingSorted(files: seq<File>, lo: Bound, hi: Bound)
    requires SortedDisjoint(files)
    ensures SortedDisjoint(Overlapping(files, lo, hi))
  {
    if files != [] {
      var init := files[..|files| - 1];
      OverlappingSorted(init, lo, hi);
      var rest := Overlapping(init, lo, hi);
      forall i | 0 <= i < |rest| ensures Before(rest[i].largest, files[|files| - 1].smallest) {
        assert rest[i] in rest;
        var j :| 0 <= j < |init| && init[j] == rest[i];
      }
    }
  }

  lemma OverlappingConvex(files: seq<File>, lo: Bound, hi: Bound)
    requires FilesOk(files) && SortedDisjoint(files)
    ensures Convex(files, Overlapping(files, lo, hi))
  {
    var chosen := Overlapping(files, lo, hi);
    forall f, g, h | f in files && g in chosen && h in chosen
      ensures !Less(f.smallest, g.smallest) && !Less(h.smallest, f.smallest) ==> f in chosen
    {
      FileOrder(files, f, g);
      FileBounds(f, f.entries[0]);
    }
  }

  lemma SingleConvex(files: seq<File>, g: File)
    requires FilesOk(files) && SortedDisjoint(files) && g in files
    ensures Convex(files, [g])
  {
    forall f | f in files ensures !Less(f.smallest, g.smallest) && !Less(g.smallest, f.smallest) ==> f in [g] {
      FileOrder(files, f, g);
    }
  }

  /** A prefix of a convex choice listed in key order is convex too. */
  lemma PrefixConvex(files: seq<File>, all: seq<File>, n: nat)
    requires n <= |all| && Convex(files, all)
    requires forall i, j | 0 <= i < j < |all| :: Before(all[i].smallest, all[j].smallest)
    ensures Convex(files, all[..n])
  {
    forall f, g, h | f in files && g in all[..n] && h in all[..n]
      ensures !Less(f.smallest, g.smallest) && !Less(h.smallest, f.smallest) ==> f in all[..n]
    {
      var j :| 0 <= j < n && all[j] == h;
      assert f in all || Less(f.smallest, g.smallest) || Less(h.smallest, f.smallest) by {
        assert g in all && h in all;
      }
      if f in all {
        InPrefix(all, n, f, j);
      }
    }
  }

  lemma InPrefix(all: seq<File>, n: nat, f: File, j: nat)
    requires j < n <= |all| && f in all
    requires forall i, j | 0 <= i < j < |all| :: Before(all[i].smallest, all[j].smallest)
    ensures f in all[..n] || Less(all[j].smallest, f.smallest)
  {
    var i :| 0 <= i < |all| && all[i] == f;
    assert i < n ==> all[..n][i] == f;
  }

  lemma ClosedRangeIsUserClosed(files: seq<File>, lo: Bound, hi: Bound)
    requires ClosedUnderOverlap(files, lo, hi)
    ensures UserClosed(files, Overlapping(files, lo, hi))
  {
    var chosen := Overlapping(files, lo, hi);
    forall f, g, h | f in files && g in chosen && h in chosen && Meets(f, g, h) ensures f in chosen {
      assert Within(Some(g.smallest.user), Some(g.largest.user), lo, hi);
      assert Within(Some(h.smallest.user), Some(h.largest.user), lo, hi);
    }
  }

  lemma UserClosedHasNoBoundary(files: seq<File>, chosen: seq<File>)
    requires FilesOk(files) && Subset(chosen, files) && UserClosed(files, chosen)
    ensures NoBoundaryLeft(files, chosen)
  {
    forall k, f | IsLargestKey(chosen, k) && f in files ensures !IsBoundary(f, k) {
      var m :| m in chosen && m.largest == k;
      FileBounds(f, f.entries[0]);
      FileBounds(m, m.entries[0]);
      assert IsBoundary(f, k) ==> Meets(f, m, m);
    }
  }

  /** With no boundary file left, nothing older of any moved user key stays behind. */
  lemma ChoiceLeavesNewer(files: seq<File>, level: nat, chosen: seq<File>)
    requires LevelOk(files, level) && ChoiceOk(files, level, chosen) && NoBoundaryLeft(files, chosen)
    ensures RemainingNewer(files, chosen)
  {
    var k := LargestExists(chosen);
    var m :| m in chosen && m.largest == k;
    forall f, g | f in files && f !in chosen && g in chosen
      ensures NewerThan(Elements(f.entries), Elements(g.entries))
    {
      if level == 0 {
        assert !Meets(f, g, g);
        ApartIsNewer(f, g);
      } else {
        FileOrder(files, f, g);
        FileOrder(files, f, m);
        assert !IsBoundary(f, k) && !Less(k, g.largest);
        assert Less(f.smallest, g.smallest) || Less(m.smallest, f.smallest);
        NeighbourIsNewer(f, g, m);
      }
    }
  }

  lemma ApartIsNewer(f: File, g: File)
    requires FileOk(f) && FileOk(g) && !Meets(f, g, g)
    ensures NewerThan(Elements(f.entries), Elements(g.entries))
  {
    forall a, b | a in f.entries && b in g.entries ensures a.key.user != b.key.user {
      FileBounds(f, a);
      FileBounds(g, b);
    }
  }

  /** f stays, g goes, and the goers end with m, on whose last user key f does not continue. */
  lemma NeighbourIsNewer(f: File, g: File, m: File)
    requires FileOk(f) && FileOk(g) && FileOk(m) && !Less(m.largest, g.largest) && !IsBoundary(f, m.largest)
    requires Before(f.largest, g.smallest) || (Before(m.largest, f.smallest) && Before(g.largest, f.smallest))
    ensures NewerThan(Elements(f.entries), Elements(g.entries))
  {
    forall a, b | a in f.entries && b in g.entries
      ensures a.key.user == b.key.user ==> a.key.sequence > b.key.sequence
    {
      FileBounds(f, a);
      FileBounds(g, b);
    }
  }

  lemma {:induction false} LargestExists(files: seq<File>) returns (k: InternalKey)
    requires files != []
    ensures IsLargestKey(files, k)
  {
    if |files| == 1 {
      k := files[0].largest;
    } else {
      var init := files[..|files| - 1];
      k := LargestExists(init);
      var last := files[|files| - 1];
      assert files == init + [last];
      LargestStep(init, k, last);
      k := if Compare(last.largest, k) > 0 then last.largest else k;
    }
  }

  // ---------------------------------------------------------------- the version set

  /** Why a compaction is started: a level is too big, or a file was sought too often. */
  datatype Trigger = SizeTriggered(level: nat) | SeekTriggered(level: nat, file: File)

  /** The file ends past the level's compaction pointer. */
  predicate Past(f: File, pointer: Option<InternalKey>) {
    pointer.None? || Compare(f.largest, pointer.value) > 0
  }

  predicate FirstPast(files: seq<File>, pointer: Option<InternalKey>, i: nat)
    requires i < |files|
  {
    Past(files[i], pointer) && forall j | 0 <= j < i :: !Past(files[j], pointer)
  }

  /** The first file past the compaction pointer, or the first file of all if none is. */
  ghost predicate IsFirstPast(files: seq<File>, pointer: Option<InternalKey>, f: File)
    requires files != []
  {
    || (exists i :: 0 <= i < |files| && FirstPast(files, pointer, i) && f == files[i])
    || (f == files[0] && forall g | g in files :: !Past(g, pointer))
  }

  /** The file that a compaction is started for. */
  ghost predicate IsPicked(v: Version, pointers: seq<Option<InternalKey>>, t: Trigger, f: File)
    requires t.level < NUM_LEVELS == |v| == |pointers|
  {
    match t
    case SeekTriggered(_, file) => f == file
    case SizeTriggered(level) => v[level] != [] && IsFirstPast(v[level], pointers[level], f)
  }

  /** At level 0, where files overlap, everything its range leads to; elsewhere the file alone. */
  ghost predicate IsStart(files: seq<File>, level: nat, f: File, chosen: seq<File>) {
    if level == 0 then IsOverlapOf(files, 0, [f], chosen) else chosen == [f]
  }

  /** The whole automatic choice, from the picked file to the completed inputs. */
  ghost predicate IsAutomatic(v: Version, pointers: seq<Option<InternalKey>>, maxFileSize: nat, t: Trigger,
                              r0: seq<File>, r1: seq<File>)
    requires t.level + 1 < NUM_LEVELS == |v| == |pointers|
  {
    exists f, chosen ::
      && IsPicked(v, pointers, t, f) && IsStart(v[t.level], t.level, f, chosen)
      && IsCompleted(v, t.level, maxFileSize, chosen, r0, r1)
  }

  lemma AutomaticBy(v: Version, pointers: seq<Option<InternalKey>>, maxFileSize: nat, t: Trigger, f: File,
                    chosen: seq<File>, r0: seq<File>, r1: seq<File>)
    requires t.level + 1 < NUM_LEVELS == |v| == |pointers|
    requires IsPicked(v, pointers, t, f) && IsStart(v[t.level], t.level, f, chosen)
    requires IsCompleted(v, t.level, maxFileSize, chosen, r0, r1)
    ensures IsAutomatic(v, pointers, maxFileSize, t, r0, r1)
  {
  }

  /** All of the level-0 files that the range leads to; elsewhere the files that overlap it, up to the cut. */
  ghost predicate IsManualChoice(files: seq<File>, level: nat, lo: Bound, hi: Bound, limit: nat, chosen: seq<File>) {
    if level == 0 then IsClosure(files, lo, hi, chosen)
    else exists n: nat :: CutAt(Overlapping(files, lo, hi), limit, n) && chosen == Overlapping(files, lo, hi)[..n]
  }

  /** The whole manual choice. */
  ghost predicate IsManual(v: Version, level: nat, lo: Bound, hi: Bound, maxFileSize: nat, r0: seq<File>, r1: seq<File>)
    requires level + 1 < NUM_LEVELS == |v|
  {
    exists chosen :: IsManualChoice(v[level], level, lo, hi, maxFileSize, chosen)
                     && IsCompleted(v, level, maxFileSize, chosen, r0, r1)
  }

  lemma ManualBy(v: Version, level: nat, lo: Bound, hi: Bound, maxFileSize: nat, chosen: seq<File>, r0: seq<File>,
                 r1: seq<File>)
    requires level + 1 < NUM_LEVELS == |v| && Subset(chosen, r0)
    requires IsManualChoice(v[level], level, lo, hi, maxFileSize, chosen)
    requires IsCompleted(v, level, maxFileSize, chosen, r0, r1)
    ensures IsManual(v, level, lo, hi, maxFileSize, r0, r1)
    ensures ManualInputsOk(v[level], level, lo, hi, maxFileSize, r0)
  {
    if level == 0 {
      ClosureHasOverlaps(v[level], lo, hi, chosen);
    }
  }

  lemma ClosureHasOverlaps(files: seq<File>, lo: Bound, hi: Bound, chosen: seq<File>)
    requires IsClosure(files, lo, hi, chosen)
    ensures Subset(Overlapping(files, lo, hi), chosen)
  {
  }

  /** The compaction pointer of the level moves to the end of the inputs, and the others stay. */
  ghost predicate PointerMoved(before: seq<Option<InternalKey>>, after: seq<Option<InternalKey>>, level: nat,
                               inputs0: seq<File>)
    requires level < |before|
  {
    exists k :: IsLargestKey(inputs0, k) && after == before[level := Some(k)]
  }

  class VersionSet {
    var current: Version
    var compactPointer: seq<Option<InternalKey>>
    const maxFileSize: nat

    constructor (v: Version, maxFileSize: nat)
      ensures current == v && this.maxFileSize == maxFileSize
      ensures compactPointer == seq(NUM_LEVELS, _ => None)
    {
      current := v;
      compactPointer := seq(NUM_LEVELS, _ => None);
      this.maxFileSize := maxFileSize;
    }

    ghost predicate Valid()
      reads this
    {
      VersionOk(current) && |compactPointer| == NUM_LEVELS
    }

    /** The files overlapping the range of the given ones: closed at level 0, convex elsewhere. */
    method OverlappingInputs(level: nat, smallest: InternalKey, largest: InternalKey) returns (r: seq<File>)
      requires Valid() && level < NUM_LEVELS
      ensures Subset(r, current[level])
      ensures forall f | f in current[level] && Overlaps(f, Some(smallest.user), Some(largest.user)) :: f in r
      ensures IsOverlap(current[level], level, smallest.user, largest.user, r)
      ensures if level == 0 then UserClosed(current[level], r) else Convex(current[level], r)
    {
      assert LevelOk(current[level], level);
      ghost var lo, hi;
      r, lo, hi := GetOverlappingInputs(current[level], level, Some(smallest.user), Some(largest.user));
      if level == 0 {
        ClosedRangeIsUserClosed(current[level], lo, hi);
      } else {
        OverlappingConvex(current[level], lo, hi);
      }
    }

    /** AddBoundaryInputs at a level keeps a legal choice legal and leaves nothing older behind. */
    method WithBoundary(level: nat, chosen: seq<File>) returns (r: seq<File>)
      requires Valid() && level < NUM_LEVELS && ChoiceOk(current[level], level, chosen)
      ensures ChoiceOk(current[level], level, r) && Subset(chosen, r) && IsBoundaryChain(current[level], chosen, r)
      ensures RemainingNewer(current[level], r)
    {
      assert LevelOk(current[level], level);
      if level == 0 {
        UserClosedHasNoBoundary(current[level], chosen);
      }
      r := AddBoundaryInputs(current[level], chosen);
      assert forall f | f in chosen :: f in r[..|chosen|];
      ChoiceLeavesNewer(current[level], level, r);
    }

    /** The next level's share: every file there that the level's inputs meet, and the range of those inputs. */
    method NextLevelInputs(level: nat, inputs0: seq<File>)
      returns (inputs1: seq<File>, smallest: InternalKey, largest: InternalKey)
      requires Valid() && level + 1 < NUM_LEVELS && inputs0 != []
      ensures Subset(inputs1, current[level + 1]) && Touching(inputs0, inputs1)
      ensures Covered(current[level + 1], inputs0, inputs1)
      ensures IsSmallestKey(inputs0, smallest) && IsLargestKey(inputs0, largest)
      ensures IsOverlapOf(current[level + 1], level + 1, inputs0, inputs1)
    {
      smallest, largest := GetRange(inputs0);
      inputs1 := OverlappingInputs(level + 1, smallest, largest);
      RangeCovers(current[level + 1], inputs0, inputs1, smallest, largest);
      RangeTouches(inputs0, inputs1, smallest, largest);
    }

    /** The level's files over the range of all inputs so far, boundary files included: a superset of inputs0. */
    method ExpandedInputs(level: nat, inputs0: seq<File>, all: seq<File>, start: InternalKey, limit: InternalKey)
      returns (expanded0: seq<File>)
      requires Valid() && level < NUM_LEVELS
      requires inputs0 != [] && Subset(inputs0, current[level]) && Subset(inputs0, all)
      requires IsSmallestKey(all, start) && IsLargestKey(all, limit)
      ensures ChoiceOk(current[level], level, expanded0) && RemainingNewer(current[level], expanded0)
      ensures Subset(inputs0, expanded0) && IsExpansion(current[level], level, all, expanded0)
    {
      assert LevelOk(current[level], level);
      expanded0 := OverlappingInputs(level, start, limit);
      RangeIncludesItself(current[level], inputs0, all, start, limit);
      assert inputs0[0] in inputs0 && inputs0[0] in expanded0;
      expanded0 := WithBoundary(level, expanded0);
    }

    /** Takes more of the level into the compaction if that does not grow the next level's share. */
    method GrowInputs(level: nat, inputs0: seq<File>, inputs1: seq<File>) returns (r0: seq<File>, r1: seq<File>)
      requires Valid() && level + 1 < NUM_LEVELS
      requires SharesOk(current[level], current[level + 1], inputs0, inputs1)
      ensures SharesOk(current[level], current[level + 1], r0, r1)
      ensures Subset(inputs0, r0) && |r1| == |inputs1|
      ensures IsGrown(current, level, maxFileSize, inputs0, inputs1, r0, r1)
    {
      r0, r1 := inputs0, inputs1;
      if inputs1 != [] {
        var all := inputs0 + inputs1;
        var allStart, allLimit := GetRange(all);
        var expanded0 := ExpandedInputs(level, inputs0, all, allStart, allLimit);
        r0, r1 := GrowInto(level, inputs0, inputs1, expanded0);
      }
    }

    /** The expansion, if it is worth taking. */
    method GrowInto(level: nat, inputs0: seq<File>, inputs1: seq<File>, expanded0: seq<File>)
      returns (r0: seq<File>, r1: seq<File>)
      requires Valid() && level + 1 < NUM_LEVELS
      requires SharesOk(current[level], current[level + 1], inputs0, inputs1)
      requires ChoiceOk(current[level], level, expanded0) && RemainingNewer(current[level], expanded0)
      requires Subset(inputs0, expanded0)
      ensures SharesOk(current[level], current[level + 1], r0, r1)
      ensures Subset(inputs0, r0) && |r1| == |inputs1|
      ensures GrowsInto(current, level, maxFileSize, inputs0, inputs1, expanded0, r0, r1)
    {
      r0, r1 := inputs0, inputs1;
      if |expanded0| > |inputs0| && TotalFileSize(inputs1) + TotalFileSize(expanded0) < 25 * maxFileSize {
        var expanded1, newStart, newLimit := NextLevelInputs(level, expanded0);
        if |expanded1| == |inputs1| {
          r0, r1 := expanded0, expanded1;
        }
      }
    }

    /** The next level but one's files over the range of all inputs. */
    method Grandparents(level: nat, all: seq<File>) returns (r: seq<File>)
      requires Valid() && level + 1 < NUM_LEVELS && all != []
      ensures GrandparentsOk(current, level, all, r)
    {
      r := [];
      if level + 2 < NUM_LEVELS {
        var allStart, allLimit := GetRange(all);
        r := OverlappingInputs(level + 2, allStart, allLimit);
        RangeCovers(current[level + 2], all, r, allStart, allLimit);
        RangeTouches(all, r, allStart, allLimit);
      }
    }

    /**
     Completes a compaction's inputs: boundary files at the level, every file of the next level that the level's
     inputs meet, and then more of the level for free if that does not grow the next level's share.
     */
    method SetupOtherInputs(level: nat, chosen: seq<File>) returns (c: Compaction)
      requires Valid() && level + 1 < NUM_LEVELS && ChoiceOk(current[level], level, chosen)
      modifies this`compactPointer
      ensures InputsOk(current, c) && c.level == level && Subset(chosen, c.inputs0)
      ensures IsCompleted(current, level, maxFileSize, chosen, c.inputs0, c.inputs1)
      ensures PointerMoved(old(compactPointer), compactPointer, level, c.inputs0)
      ensures GrandparentsOk(current, level, c.inputs0 + c.inputs1, c.grandparents)
    {
      var inputs0, inputs1 := CompleteInputs(level, chosen);
      var smallest, largest := GetRange(inputs0);
      var grandparents := Grandparents(level, inputs0 + inputs1);
      compactPointer := compactPointer[level := Some(largest)];
      c := Compaction(level, inputs0, inputs1, grandparents);
    }

    /** The inputs at both levels. */
    method CompleteInputs(level: nat, chosen: seq<File>) returns (r0: seq<File>, r1: seq<File>)
      requires Valid() && level + 1 < NUM_LEVELS && ChoiceOk(current[level], level, chosen)
      ensures SharesOk(current[level], current[level + 1], r0, r1) && Subset(chosen, r0)
      ensures IsCompleted(current, level, maxFileSize, chosen, r0, r1)
    {
      var inputs0 := WithBoundary(level, chosen);
      var inputs1, smallest, largest := NextLevelInputs(level, inputs0);
      r0, r1 := GrowInputs(level, inputs0, inputs1);
      CompletedBy(current, level, maxFileSize, chosen, inputs0, inputs1, r0, r1);
    }

    /** The first file past the level's compaction pointer, wrapping around, or the sought file. */
    method PickFile(t: Trigger) returns (f: File)
      requires Valid() && t.level < NUM_LEVELS
      requires t.SizeTriggered? ==> current[t.level] != []
      requires t.SeekTriggered? ==> t.file in current[t.level]
      ensures f in current[t.level] && IsPicked(current, compactPointer, t, f)
    {
      if t.SeekTriggered? {
        return t.file;
      }
      var files := current[t.level];
      var i := 0;
      while i < |files|
        invariant 0 <= i <= |files|
        invariant forall j | 0 <= j < i :: !Past(files[j], compactPointer[t.level])
      {
        if compactPointer[t.level].None? || Compare(files[i].largest, compactPointer[t.level].value) > 0 {
          assert FirstPast(files, compactPointer[t.level], i);
          return files[i];
        }
        i := i + 1;
      }
      f := files[0];
    }

    /**
     The automatic choice: the first file past the level's compaction pointer, wrapping around, or the sought file.
     */
    method PickCompaction(t: Trigger) returns (c: Compaction)
      requires Valid() && t.level + 1 < NUM_LEVELS
      requires t.SizeTriggered? ==> current[t.level] != []
      requires t.SeekTriggered? ==> t.file in current[t.level]
      modifies this`compactPointer
      ensures InputsOk(current, c) && c.level == t.level
      ensures exists f :: IsPicked(current, old(compactPointer), t, f) && f in c.inputs0
      ensures IsAutomatic(current, old(compactPointer), maxFileSize, t, c.inputs0, c.inputs1)
      ensures PointerMoved(old(compactPointer), compactPointer, t.level, c.inputs0)
      ensures GrandparentsOk(current, t.level, c.inputs0 + c.inputs1, c.grandparents)
    {
      var picked := PickFile(t);
      var chosen := StartFrom(t.level, picked);
      c := SetupOtherInputs(t.level, chosen);
      AutomaticBy(current, old(compactPointer), maxFileSize, t, picked, chosen, c.inputs0, c.inputs1);
    }

    method StartFrom(level: nat, picked: File) returns (chosen: seq<File>)
      requires Valid() && level < NUM_LEVELS && picked in current[level]
      ensures ChoiceOk(current[level], level, chosen) && picked in chosen
      ensures IsStart(current[level], level, picked, chosen)
    {
      var files := current[level];
      assert LevelOk(files, level);
      chosen := [picked];
      if level == 0 {
        var smallest, largest := GetRange(chosen);
        RangeIncludesItself(files, chosen, chosen, smallest, largest);
        assert picked in chosen;
        chosen := OverlappingInputs(0, smallest, largest);
        assert picked in chosen;
      } else {
        SingleConvex(files, picked);
      }
    }

    /**
     The manual choice: what overlaps the range, cut short above level 0 once it reaches one file's worth of bytes.
     */
    method CompactRange(level: nat, begin: Option<InternalKey>, end: Option<InternalKey>)
      returns (c: Option<Compaction>)
      requires Valid() && level + 1 < NUM_LEVELS
      modifies this`compactPointer
      ensures c.Some? ==> InputsOk(current, c.value) && c.value.level == level
      ensures c.Some? ==> GrandparentsOk(current, level, c.value.inputs0 + c.value.inputs1, c.value.grandparents)
      ensures c.Some? ==>
                IsManual(current, level, UserBound(begin), UserBound(end), maxFileSize, c.value.inputs0,
                         c.value.inputs1)
      ensures c.Some? ==>
                ManualInputsOk(current[level], level, UserBound(begin), UserBound(end), maxFileSize, c.value.inputs0)
      ensures c.Some? ==> PointerMoved(old(compactPointer), compactPointer, level, c.value.inputs0)
      ensures c.None? <==> forall f | f in current[level] :: !Overlaps(f, UserBound(begin), UserBound(end))
      ensures c.None? ==> compactPointer == old(compactPointer)
    {
      var inputs := ManualInputs(level, UserBound(begin), UserBound(end));
      if inputs == [] {
        return None;
      }
      var compaction := SetupOtherInputs(level, inputs);
      ManualBy(current, level, UserBound(begin), UserBound(end), maxFileSize, inputs, compaction.inputs0,
               compaction.inputs1);
      c := Some(compaction);
    }

    /** What overlaps the range, cut short above level 0. */
    method ManualInputs(level: nat, lo: Bound, hi: Bound) returns (inputs: seq<File>)
      requires Valid() && level < NUM_LEVELS
      ensures inputs == [] <==> forall f | f in current[level] :: !Overlaps(f, lo, hi)
      ensures inputs != [] ==> ChoiceOk(current[level], level, inputs)
      ensures inputs != [] ==> IsManualChoice(current[level], level, lo, hi, maxFileSize, inputs)
    {
      assert LevelOk(current[level], level);
      ghost var from, to;
      inputs, from, to := GetOverlappingInputs(current[level], level, lo, hi);
      if inputs == [] {
        return;
      }
      SomethingOverlaps(current[level], lo, hi, from, to);
      if level == 0 {
        ClosedRangeIsUserClosed(current[level], from, to);
      } else {
        OverlappingConvex(current[level], from, to);
        OverlappingSorted(current[level], from, to);
        LargestKeysAscend(inputs);
        var n := CutShort(inputs);
        PrefixConvex(current[level], inputs, n);
        inputs := inputs[..n];
      }
    }

    /** How many of the files make one file's worth of bytes. */
    method CutShort(files: seq<File>) returns (n: nat)
      requires files != []
      ensures CutAt(files, maxFileSize, n)
    {
      var total, i := 0, 0;
      while i < |files|
        invariant 0 <= i <= |files|
        invariant total == TotalFileSize(files[..i])
        invariant i > 0 ==> total < maxFileSize
        invariant i > 1 ==> TotalFileSize(files[..i - 1]) < maxFileSize
      {
        total := total + files[i].size;
        assert files[..i + 1] == files[..i] + [files[i]];
        TotalFileSizeStep(files[..i], files[i]);
        if total >= maxFileSize {
          return i + 1;
        }
        i := i + 1;
      }
      assert files[..|files|] == files;
      n := |files|;
    }
  }

  /** Growing a range to a closed one brings in a file only if some file overlapped it to begin with. */
  lemma SomethingOverlaps(files: seq<File>, begin: Bound, end: Bound, lo: Bound, hi: Bound)
    requires Within(begin, end, lo, hi) && Overlapping(files, lo, hi) != []
    requires InsideClosedRanges(files, begin, end, lo, hi)
    ensures exists f :: f in files && Overlaps(f, begin, end)
  {
    var f := Overlapping(files, lo, hi)[0];
    if forall g | g in files :: !Overlaps(g, begin, end) {
      assert ClosedUnderOverlap(files, begin, end) && Within(begin, end, begin, end);
      assert Overlaps(f, begin, end);
    }
  }

  function UserBound(k: Option<InternalKey>): Bound {
    if k.Some? then Some(k.value.user) else None
  }

  lemma RangeCovers(files: seq<File>, inputs0: seq<File>, inputs1: seq<File>, smallest: InternalKey,
                    largest: InternalKey)
    requires IsSmallestKey(inputs0, smallest) && IsLargestKey(inputs0, largest)
    requires forall f | f in files && Overlaps(f, Some(smallest.user), Some(largest.user)) :: f in inputs1
    ensures Covered(files, inputs0, inputs1)
  {
    forall f, g, h | f in files && g in inputs0 && h in inputs0 && Meets(f, g, h) ensures f in inputs1 {
      assert !Less(g.smallest, smallest) && !Less(largest, h.largest);
      assert Overlaps(f, Some(smallest.user), Some(largest.user));
    }
  }

  lemma RangeTouches(inputs0: seq<File>, inputs1: seq<File>, smallest: InternalKey, largest: InternalKey)
    requires IsSmallestKey(inputs0, smallest) && IsLargestKey(inputs0, largest)
    requires forall f | f in inputs1 :: Overlaps(f, Some(smallest.user), Some(largest.user))
    ensures Touching(inputs0, inputs1)
  {
    var g :| g in inputs0 && g.smallest == smallest;
    var h :| h in inputs0 && h.largest == largest;
    assert forall f | f in inputs1 :: Meets(f, g, h);
  }

  lemma RangeIncludesItself(files: seq<File>, some: seq<File>, all: seq<File>, smallest: InternalKey,
                            largest: InternalKey)
    requires FilesOk(files) && Subset(some, files) && Subset(some, all)
    requires IsSmallestKey(all, smallest) && IsLargestKey(all, largest)
    ensures forall f | f in some :: Overlaps(f, Some(smallest.user), Some(largest.user))
  {
    forall f | f in some ensures Overlaps(f, Some(smallest.user), Some(largest.user)) {
      assert f in all && f in files;
      FileBounds(f, f.entries[0]);
    }
  }

  /** A lone input with nothing below it is moved instead of rewritten, unless the level after next is too busy. */
  predicate IsTrivialMove(c: Compaction, maxFileSize: nat) {
    |c.inputs0| == 1 && |c.inputs1| == 0 && TotalFileSize(c.grandparents) <= 10 * maxFileSize
  }

  ghost predicate LevelMeetsRange(v: Version, l: nat, lo: UserKey, hi: UserKey)
    requires l < NUM_LEVELS
  {
    exists f :: f in v[l] && Overlaps(f, Some(lo), Some(hi))
  }

  /** Nothing in the next level meets the range, and not too many bytes of the level after that do. */
  ghost predicate MayGoDeeper(v: Version, level: nat, lo: UserKey, hi: UserKey, maxFileSize: nat)
    requires level < MAX_MEM_COMPACT_LEVEL
  {
    && !LevelMeetsRange(v, level + 1, lo, hi)
    && TotalFileSize(Overlapping(v[level + 2], Some(lo), Some(hi))) <= 10 * maxFileSize
  }

  /** The level for a flushed memtable covering [lo, hi]: level 0 if it meets the range, else as deep as it may go. */
  ghost predicate IsPlacement(v: Version, level: nat, lo: UserKey, hi: UserKey, maxFileSize: nat) {
    if LevelMeetsRange(v, 0, lo, hi) then level == 0
    else
      && level <= MAX_MEM_COMPACT_LEVEL
      && (forall l | 0 <= l < level :: MayGoDeeper(v, l, lo, hi, maxFileSize))
      && (level < MAX_MEM_COMPACT_LEVEL ==> !MayGoDeeper(v, level, lo, hi, maxFileSize))
  }

  /** There is only one such level. */
  lemma PlacementIsUnique(v: Version, k: nat, l: nat, lo: UserKey, hi: UserKey, maxFileSize: nat)
    requires IsPlacement(v, k, lo, hi, maxFileSize) && IsPlacement(v, l, lo, hi, maxFileSize)
    ensures k == l
  {
  }

  /** No level at or above a placement below level 0 meets the range. */
  lemma PlacementMeetsNothing(v: Version, level: nat, lo: UserKey, hi: UserKey, maxFileSize: nat)
    requires IsPlacement(v, level, lo, hi, maxFileSize)
    ensures level <= MAX_MEM_COMPACT_LEVEL
    ensures level > 0 ==> forall l | 0 <= l <= level :: !LevelMeetsRange(v, l, lo, hi)
  {
    forall l | 0 < l <= level
      ensures !LevelMeetsRange(v, l, lo, hi)
    {
      assert MayGoDeeper(v, l - 1, lo, hi, maxFileSize);
    }
  }

  method OverlapInLevel(v: Version, level: nat, lo: UserKey, hi: UserKey) returns (r: bool)
    requires VersionOk(v) && level < NUM_LEVELS
    ensures r <==> LevelMeetsRange(v, level, lo, hi)
  {
    assert LevelOk(v[level], level);
    r := SomeFileOverlapsRange(level > 0, v[level], Some(lo), Some(hi));
  }

  /** Whether the files of a level that meet the range are too many bytes to put a file above them. */
  method TooBusy(v: Version, level: nat, lo: UserKey, hi: UserKey, maxFileSize: nat) returns (busy: bool)
    requires VersionOk(v) && 0 < level < NUM_LEVELS
    ensures busy <==> TotalFileSize(Overlapping(v[level], Some(lo), Some(hi))) > 10 * maxFileSize
  {
    assert LevelOk(v[level], level);
    ghost var b, e;
    var overlaps;
    overlaps, b, e := GetOverlappingInputs(v[level], level, Some(lo), Some(hi));
    busy := TotalFileSize(overlaps) > 10 * maxFileSize;
  }

  /** Version::PickLevelForMemTableOutput. */
  method PickLevelForMemTableOutput(v: Version, lo: UserKey, hi: UserKey, maxFileSize: nat) returns (level: nat)
    requires VersionOk(v)
    ensures IsPlacement(v, level, lo, hi, maxFileSize)
  {
    level := 0;
    var overlap := OverlapInLevel(v, 0, lo, hi);
    if overlap {
      return;
    }
    while level < MAX_MEM_COMPACT_LEVEL
      invariant 0 <= level <= MAX_MEM_COMPACT_LEVEL
      invariant forall l | 0 <= l < level :: MayGoDeeper(v, l, lo, hi, maxFileSize)
    {
      overlap := OverlapInLevel(v, level + 1, lo, hi);
      if overlap {
        break;
      }
      if level + 2 < NUM_LEVELS {
        var busy := TooBusy(v, level + 2, lo, hi, maxFileSize);
        if busy {
          break;
        }
      }
      level := level + 1;
    }
  }
}
