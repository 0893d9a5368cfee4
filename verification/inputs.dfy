/**
 What a choice of files is made from: overlap tests, GetOverlappingInputs with its restarting search for a closed
 range, key ranges of file lists, and AddBoundaryInputs.
 */
module Inputs {
  import opened Keys
  import opened Reads
  import opened Versions

  const MAX_MEM_COMPACT_LEVEL := 2

  // ---------------------------------------------------------------- user-key ranges

  /** A bound of a user-key range; None is unbounded. */
  type Bound = Option<UserKey>

  predicate AfterFile(u: Bound, f: File) {
    u.Some? && u.value > f.largest.user
  }

  predicate BeforeFile(u: Bound, f: File) {
    u.Some? && u.value < f.smallest.user
  }

  predicate Overlaps(f: File, lo: Bound, hi: Bound) {
    !AfterFile(lo, f) && !BeforeFile(hi, f)
  }

  /** [lo, hi] lies within [lo', hi']. */
  predicate Within(lo: Bound, hi: Bound, lo': Bound, hi': Bound) {
    && (lo'.None? || (lo.Some? && lo'.value <= lo.value))
    && (hi'.None? || (hi.Some? && hi.value <= hi'.value))
  }

  /** Every file that overlaps [lo, hi] lies inside it. */
  ghost predicate ClosedUnderOverlap(files: seq<File>, lo: Bound, hi: Bound) {
    forall f | f in files && Overlaps(f, lo, hi) :: Within(Some(f.smallest.user), Some(f.largest.user), lo, hi)
  }

  /** The files of a list that overlap [lo, hi], in list order. */
  function Overlapping(files: seq<File>, lo: Bound, hi: Bound): (r: seq<File>)
    ensures forall f :: f in r <==> f in files && Overlaps(f, lo, hi)
    ensures |r| <= |files|
  {
    if files == [] then []
    else
      var rest := Overlapping(files[..|files| - 1], lo, hi);
      var last := files[|files| - 1];
      assert files == files[..|files| - 1] + [last];
      if Overlaps(last, lo, hi) then rest + [last] else rest
  }

  lemma OverlappingStep(files: seq<File>, i: nat, lo: Bound, hi: Bound)
    requires i < |files|
    ensures Overlapping(files[..i + 1], lo, hi) ==
            Overlapping(files[..i], lo, hi) + if Overlaps(files[i], lo, hi) then [files[i]] else []
  {
    assert files[..i + 1][..i] == files[..i];
  }

  /** Whether some file of the list meets the closed user-key range. */
  method SomeFileOverlapsRange(disjointSorted: bool, files: seq<File>, lo: Bound, hi: Bound) returns (r: bool)
    requires FilesOk(files)
    requires disjointSorted ==> SortedDisjoint(files)
    ensures r <==> exists f :: f in files && Overlaps(f, lo, hi)
  {
    if !disjointSorted {
      for i := 0 to |files|
        invariant forall f | f in files[..i] :: !Overlaps(f, lo, hi)
      {
        if AfterFile(lo, files[i]) || BeforeFile(hi, files[i]) {
        } else {
          assert files[i] in files;
          return true;
        }
      }
      assert files[..|files|] == files;
      return false;
    }
    var index := 0;
    if lo.Some? {
      index := FindFile(files, InternalKey(lo.value, MAX_SEQUENCE, TYPE_FOR_SEEK));
      forall i | 0 <= i < |files| ensures i < index <==> AfterFile(lo, files[i]) {
        LookupSplits(lo.value, MAX_SEQUENCE, files[i].largest);
      }
    }
    if index >= |files| {
      return false;
    }
    r := !BeforeFile(hi, files[index]);
    forall i | index < i < |files| ensures BeforeFile(hi, files[index]) ==> BeforeFile(hi, files[i]) {
      LargestKeysAscend(files);
      assert Before(files[index].smallest, files[i].smallest);
    }
    assert files[index] in files;
  }

  // ---------------------------------------------------------------- GetOverlappingInputs

  ghost function StartingBelow(files: seq<File>, lo: Bound): set<int> {
    set i | 0 <= i < |files| && lo.Some? && files[i].smallest.user < lo.value
  }

  ghost function EndingAbove(files: seq<File>, hi: Bound): set<int> {
    set i | 0 <= i < |files| && hi.Some? && files[i].largest.user > hi.value
  }

  /** [lo, hi] contains [begin, end] and lies inside every closed range that does. */
  ghost predicate InsideClosedRanges(files: seq<File>, begin: Bound, end: Bound, lo: Bound, hi: Bound) {
    && Within(begin, end, lo, hi)
    && forall lo', hi' | ClosedUnderOverlap(files, lo', hi') && Within(begin, end, lo', hi') :: Within(lo, hi, lo', hi')
  }

  /** The least range that contains [begin, end] and is closed under overlap. */
  ghost predicate LeastClosed(files: seq<File>, begin: Bound, end: Bound, lo: Bound, hi: Bound) {
    InsideClosedRanges(files, begin, end, lo, hi) && ClosedUnderOverlap(files, lo, hi)
  }

  /** The files that overlap the least closed range around [begin, end]. */
  ghost predicate IsClosure(files: seq<File>, begin: Bound, end: Bound, inputs: seq<File>) {
    exists lo, hi :: LeastClosed(files, begin, end, lo, hi) && inputs == Overlapping(files, lo, hi)
  }

  /** Growing the range to take in an overlapping file keeps it inside every closed range, and uses the file up. */
  lemma GrowLow(files: seq<File>, begin: Bound, end: Bound, lo: Bound, hi: Bound, i: nat)
    requires i < |files| && FileOk(files[i]) && Overlaps(files[i], lo, hi)
    requires InsideClosedRanges(files, begin, end, lo, hi)
    requires lo.Some? && files[i].smallest.user < lo.value
    ensures InsideClosedRanges(files, begin, end, Some(files[i].smallest.user), hi)
    ensures StartingBelow(files, Some(files[i].smallest.user)) < StartingBelow(files, lo)
  {
    var f := files[i];
    assert f in files;
    FileBounds(f, f.entries[0]);
    forall lo', hi' | ClosedUnderOverlap(files, lo', hi') && Within(begin, end, lo', hi')
      ensures Within(Some(f.smallest.user), hi, lo', hi')
    {
      assert Within(lo, hi, lo', hi');
      assert Overlaps(f, lo', hi');
    }
    assert i in StartingBelow(files, lo) && i !in StartingBelow(files, Some(f.smallest.user));
  }

  lemma GrowHigh(files: seq<File>, begin: Bound, end: Bound, lo: Bound, hi: Bound, i: nat)
    requires i < |files| && FileOk(files[i]) && Overlaps(files[i], lo, hi)
    requires InsideClosedRanges(files, begin, end, lo, hi)
    requires hi.Some? && files[i].largest.user > hi.value
    ensures InsideClosedRanges(files, begin, end, lo, Some(files[i].largest.user))
    ensures EndingAbove(files, Some(files[i].largest.user)) < EndingAbove(files, hi)
  {
    var f := files[i];
    assert f in files;
    FileBounds(f, f.entries[0]);
    forall lo', hi' | ClosedUnderOverlap(files, lo', hi') && Within(begin, end, lo', hi')
      ensures Within(lo, Some(f.largest.user), lo', hi')
    {
      assert Within(lo, hi, lo', hi');
      assert Overlaps(f, lo', hi');
    }
    assert i in EndingAbove(files, hi) && i !in EndingAbove(files, Some(f.largest.user));
  }

  lemma ClosedStep(files: seq<File>, i: nat, lo: Bound, hi: Bound)
    requires i < |files|
    requires ClosedUnderOverlap(files[..i], lo, hi)
    requires Overlaps(files[i], lo, hi) ==> Within(Some(files[i].smallest.user), Some(files[i].largest.user), lo, hi)
    ensures ClosedUnderOverlap(files[..i + 1], lo, hi)
  {
    assert files[..i + 1] == files[..i] + [files[i]];
  }

  /**
   All files of the level that overlap [begin, end]. At level 0, where files overlap one another, the range grows
   to the least range closed under overlap, and the scan restarts each time it grows.
   */
  method GetOverlappingInputs(files: seq<File>, level: nat, begin: Bound, end: Bound)
    returns (inputs: seq<File>, ghost lo: Bound, ghost hi: Bound)
    requires FilesOk(files)
    ensures inputs == Overlapping(files, lo, hi)
    ensures level > 0 ==> lo == begin && hi == end && inputs == Overlapping(files, begin, end)
    ensures level == 0 ==> LeastClosed(files, begin, end, lo, hi) && IsClosure(files, begin, end, inputs)
  {
    inputs := [];
    var userBegin, userEnd := begin, end;
    var i := 0;
    while i < |files|
      invariant 0 <= i <= |files|
      invariant inputs == Overlapping(files[..i], userBegin, userEnd)
      invariant level > 0 ==> userBegin == begin && userEnd == end
      invariant level == 0 ==> ClosedUnderOverlap(files[..i], userBegin, userEnd)
      invariant InsideClosedRanges(files, begin, end, userBegin, userEnd)
      decreases StartingBelow(files, userBegin), EndingAbove(files, userEnd), |files| - i
    {
      var f := files[i];
      assert FileOk(f);
      OverlappingStep(files, i, userBegin, userEnd);
      if AfterFile(userBegin, f) {
      } else if BeforeFile(userEnd, f) {
      } else {
        inputs := inputs + [f];
        if level == 0 {
          if userBegin.Some? && f.smallest.user < userBegin.value {
            GrowLow(files, begin, end, userBegin, userEnd, i);
            userBegin := Some(f.smallest.user);
            inputs, i := [], 0;
            continue;
          } else if userEnd.Some? && f.largest.user > userEnd.value {
            GrowHigh(files, begin, end, userBegin, userEnd, i);
            userEnd := Some(f.largest.user);
            inputs, i := [], 0;
            continue;
          }
        }
      }
      if level == 0 {
        ClosedStep(files, i, userBegin, userEnd);
      }
      i := i + 1;
    }
    lo, hi := userBegin, userEnd;
    WholeList(files, begin, end, lo, hi);
  }

  lemma WholeList(files: seq<File>, begin: Bound, end: Bound, lo: Bound, hi: Bound)
    requires InsideClosedRanges(files, begin, end, lo, hi)
    ensures files[..|files|] == files
    ensures ClosedUnderOverlap(files[..|files|], lo, hi) ==> LeastClosed(files, begin, end, lo, hi)
  {
    assert files[..|files|] == files;
  }

  // ---------------------------------------------------------------- boundary files

  ghost predicate IsLargestKey(files: seq<File>, k: InternalKey) {
    && (exists f :: f in files && f.largest == k)
    && forall f | f in files :: !Less(k, f.largest)
  }

  ghost predicate IsSmallestKey(files: seq<File>, k: InternalKey) {
    && (exists f :: f in files && f.smallest == k)
    && forall f | f in files :: !Less(f.smallest, k)
  }

  lemma LargestStep(files: seq<File>, k: InternalKey, f: File)
    requires IsLargestKey(files, k)
    ensures IsLargestKey(files + [f], if Compare(f.largest, k) > 0 then f.largest else k)
  {
    var g :| g in files && g.largest == k;
    assert g in files + [f] && f in files + [f];
  }

  lemma SmallestStep(files: seq<File>, k: InternalKey, f: File)
    requires IsSmallestKey(files, k)
    ensures IsSmallestKey(files + [f], if Compare(f.smallest, k) < 0 then f.smallest else k)
  {
    var g :| g in files && g.smallest == k;
    assert g in files + [f] && f in files + [f];
  }

  method FindLargestKey(files: seq<File>) returns (found: bool, k: InternalKey)
    ensures found <==> files != []
    ensures found ==> IsLargestKey(files, k)
  {
    if files == [] {
      return false, InternalKey(0.0, 0, TypeDeletion);
    }
    k := files[0].largest;
    for i := 1 to |files|
      invariant IsLargestKey(files[..i], k)
    {
      assert files[..i + 1] == files[..i] + [files[i]];
      LargestStep(files[..i], k, files[i]);
      if Compare(files[i].largest, k) > 0 {
        k := files[i].largest;
      }
    }
    assert files[..|files|] == files;
    found := true;
  }

  method GetRange(inputs: seq<File>) returns (smallest: InternalKey, largest: InternalKey)
    requires inputs != []
    ensures IsSmallestKey(inputs, smallest) && IsLargestKey(inputs, largest)
  {
    smallest, largest := inputs[0].smallest, inputs[0].largest;
    for i := 1 to |inputs|
      invariant IsSmallestKey(inputs[..i], smallest)
      invariant IsLargestKey(inputs[..i], largest)
    {
      assert inputs[..i + 1] == inputs[..i] + [inputs[i]];
      SmallestStep(inputs[..i], smallest, inputs[i]);
      LargestStep(inputs[..i], largest, inputs[i]);
      if Compare(inputs[i].smallest, smallest) < 0 {
        smallest := inputs[i].smallest;
      }
      if Compare(inputs[i].largest, largest) > 0 {
        largest := inputs[i].largest;
      }
    }
    assert inputs[..|inputs|] == inputs;
  }

  /** A file that starts after k, on k's own user key. */
  predicate IsBoundary(f: File, k: InternalKey) {
    Compare(f.smallest, k) > 0 && f.smallest.user == k.user
  }

  method FindSmallestBoundaryFile(levelFiles: seq<File>, k: InternalKey) returns (r: Option<File>)
    ensures r.None? ==> forall f | f in levelFiles :: !IsBoundary(f, k)
    ensures r.Some? ==> r.value in levelFiles && IsBoundary(r.value, k)
    ensures r.Some? ==> forall f | f in levelFiles && IsBoundary(f, k) :: !Less(f.smallest, r.value.smallest)
  {
    r := None;
    for i := 0 to |levelFiles|
      invariant r.None? ==> forall f | f in levelFiles[..i] :: !IsBoundary(f, k)
      invariant r.Some? ==> r.value in levelFiles && IsBoundary(r.value, k)
      invariant r.Some? ==> forall f | f in levelFiles[..i] && IsBoundary(f, k) :: !Less(f.smallest, r.value.smallest)
    {
      var f := levelFiles[i];
      if Compare(f.smallest, k) > 0 && f.smallest.user == k.user {
        if r.None? || Compare(f.smallest, r.value.smallest) < 0 {
          r := Some(f);
        }
      }
      assert levelFiles[..i + 1] == levelFiles[..i] + [f];
    }
    assert levelFiles[..|levelFiles|] == levelFiles;
  }

  /** No file of the level sorts between two chosen ones without being chosen. */
  ghost predicate Convex(levelFiles: seq<File>, chosen: seq<File>) {
    forall f, g, h | f in levelFiles && g in chosen && h in chosen
                     && !Less(f.smallest, g.smallest) && !Less(h.smallest, f.smallest) :: f in chosen
  }

  ghost predicate Subset(chosen: seq<File>, levelFiles: seq<File>) {
    forall f | f in chosen :: f in levelFiles
  }

  ghost predicate NoBoundaryLeft(levelFiles: seq<File>, chosen: seq<File>) {
    forall k | IsLargestKey(chosen, k) :: forall f | f in levelFiles :: !IsBoundary(f, k)
  }

  /** The boundary file of the chosen ones that comes first. */
  ghost predicate IsNextBoundary(levelFiles: seq<File>, chosen: seq<File>, b: File) {
    b in levelFiles && exists k :: IsLargestKey(chosen, k) && ComesFirst(levelFiles, k, b)
  }

  ghost predicate ComesFirst(levelFiles: seq<File>, k: InternalKey, b: File) {
    IsBoundary(b, k) && forall f | f in levelFiles && IsBoundary(f, k) :: !Less(f.smallest, b.smallest)
  }

  /** From the n-th on, each file is the next boundary file of those before it. */
  ghost predicate Chained(levelFiles: seq<File>, n: nat, r: seq<File>) {
    forall i {:trigger r[..i]} | n <= i < |r| :: IsNextBoundary(levelFiles, r[..i], r[i])
  }

  /** The chosen files, then each next boundary file of those before it, and no more than it takes. */
  ghost predicate IsBoundaryChain(levelFiles: seq<File>, chosen: seq<File>, r: seq<File>) {
    chosen <= r && NoBoundaryLeft(levelFiles, r) && Chained(levelFiles, |chosen|, r)
  }

  ghost function StartingAfter(files: seq<File>, k: InternalKey): set<int> {
    set i | 0 <= i < |files| && Less(k, files[i].smallest)
  }

  /**
   Adds to the chosen files every level file that continues the user key on which the chosen files end, until none
   is left. A convex choice stays convex, and a choice that needs nothing is returned as it is.
   */
  method AddBoundaryInputs(levelFiles: seq<File>, chosen: seq<File>) returns (r: seq<File>)
    requires FilesOk(levelFiles) && Subset(chosen, levelFiles)
    ensures Subset(r, levelFiles) && chosen <= r
    ensures NoBoundaryLeft(levelFiles, r)
    ensures IsBoundaryChain(levelFiles, chosen, r)
    ensures NoBoundaryLeft(levelFiles, chosen) ==> r == chosen
    ensures SortedDisjoint(levelFiles) && Convex(levelFiles, chosen) ==> Convex(levelFiles, r)
  {
    r := chosen;
    var found, k := FindLargestKey(r);
    if !found {
      return;
    }
    var searching := true;
    while searching
      invariant Subset(r, levelFiles) && chosen <= r && IsLargestKey(r, k)
      invariant !searching ==> forall f | f in levelFiles :: !IsBoundary(f, k)
      invariant Chained(levelFiles, |chosen|, r)
      invariant NoBoundaryLeft(levelFiles, chosen) ==> r == chosen
      invariant SortedDisjoint(levelFiles) && Convex(levelFiles, chosen) ==> Convex(levelFiles, r)
      decreases StartingAfter(levelFiles, k), searching
    {
      var b := FindSmallestBoundaryFile(levelFiles, k);
      if b.Some? {
        BoundaryStep(levelFiles, r, k, b.value);
        OneMoreBoundary(levelFiles, |chosen|, r, k, b.value);
        r := r + [b.value];
        k := b.value.largest;
      } else {
        searching := false;
      }
    }
    LargestKeyIsUnique(r, k);
  }

  lemma OneMoreBoundary(levelFiles: seq<File>, n: nat, r: seq<File>, k: InternalKey, b: File)
    requires IsLargestKey(r, k) && ComesFirst(levelFiles, k, b) && b in levelFiles
    requires Chained(levelFiles, n, r)
    ensures Chained(levelFiles, n, r + [b])
  {
    var more := r + [b];
    forall i {:trigger more[..i]} | n <= i < |more|
      ensures IsNextBoundary(levelFiles, more[..i], more[i])
    {
      assert more[..i] == r[..i];
      assert r[..|r|] == r;
    }
  }

  lemma LargestKeyIsUnique(files: seq<File>, k: InternalKey)
    requires IsLargestKey(files, k)
    ensures forall k' | IsLargestKey(files, k') :: k' == k
  {
    forall k' | IsLargestKey(files, k') ensures k' == k {
      CompareIsTotalOrder(k, k', k);
    }
  }

  lemma BoundaryStep(levelFiles: seq<File>, r: seq<File>, k: InternalKey, b: File)
    requires FilesOk(levelFiles) && Subset(r, levelFiles) && IsLargestKey(r, k)
    requires b in levelFiles && ComesFirst(levelFiles, k, b)
    ensures IsLargestKey(r + [b], b.largest)
    ensures StartingAfter(levelFiles, b.largest) < StartingAfter(levelFiles, k)
    ensures !NoBoundaryLeft(levelFiles, r)
    ensures SortedDisjoint(levelFiles) && Convex(levelFiles, r) ==> Convex(levelFiles, r + [b])
  {
    FileBounds(b, b.entries[0]);
    var i :| 0 <= i < |levelFiles| && levelFiles[i] == b;
    assert StartingAfter(levelFiles, b.largest) < StartingAfter(levelFiles, k) by {
      assert i in StartingAfter(levelFiles, k) && i !in StartingAfter(levelFiles, b.largest);
    }
    LargestStep(r, k, b);
    if SortedDisjoint(levelFiles) && Convex(levelFiles, r) {
      ConvexStep(levelFiles, r, k, b);
    }
  }

  lemma ConvexStep(levelFiles: seq<File>, r: seq<File>, k: InternalKey, b: File)
    requires FilesOk(levelFiles) && Subset(r, levelFiles) && IsLargestKey(r, k)
    requires b in levelFiles && IsBoundary(b, k)
    requires forall f | f in levelFiles && IsBoundary(f, k) :: !Less(f.smallest, b.smallest)
    requires SortedDisjoint(levelFiles) && Convex(levelFiles, r)
    ensures Convex(levelFiles, r + [b])
  {
    var m :| m in r && m.largest == k;
    forall f, g, h | f in levelFiles && g in r + [b] && h in r + [b]
      ensures !Less(f.smallest, g.smallest) && !Less(h.smallest, f.smallest) ==> f in r + [b]
    {
      Bracketed(levelFiles, r, k, b, m, f, g, h);
    }
  }

  lemma Bracketed(levelFiles: seq<File>, r: seq<File>, k: InternalKey, b: File, m: File, f: File, g: File, h: File)
    requires FilesOk(levelFiles) && Subset(r, levelFiles) && IsLargestKey(r, k)
    requires b in levelFiles && IsBoundary(b, k) && m in r && m.largest == k
    requires forall f | f in levelFiles && IsBoundary(f, k) :: !Less(f.smallest, b.smallest)
    requires SortedDisjoint(levelFiles) && Convex(levelFiles, r)
    requires f in levelFiles && g in r + [b] && h in r + [b]
    ensures !Less(f.smallest, g.smallest) && !Less(h.smallest, f.smallest) ==> f in r + [b]
  {
    FileOrder(levelFiles, f, b);
    FileOrder(levelFiles, f, m);
    FileBounds(h, h.entries[0]);
    assert h in r ==> !Less(k, h.largest);
    assert IsBoundary(f, k) ==> !Less(f.smallest, b.smallest);
    assert g in r ==> f in r || Less(f.smallest, g.smallest) || Less(m.smallest, f.smallest);
    assert g in r && h in r ==> f in r || Less(f.smallest, g.smallest) || Less(h.smallest, f.smallest);
    ConvexAt(r, k, b, m, f, g, h);
  }

  /** The one case analysis behind ConvexStep: where f can lie when g and h bracket it. */
  lemma ConvexAt(r: seq<File>, k: InternalKey, b: File, m: File, f: File, g: File, h: File)
    requires g in r + [b] && h in r + [b] && m.largest == k && IsBoundary(b, k)
    requires f == b || Before(f.smallest, b.smallest) || Before(b.smallest, f.smallest)
    requires f == m || Before(f.smallest, m.smallest) || Before(m.largest, f.smallest)
    requires h in r ==> !Less(k, h.largest) && !Less(h.largest, h.smallest)
    requires IsBoundary(f, k) ==> !Less(f.smallest, b.smallest)
    requires g in r ==> f in r || Less(f.smallest, g.smallest) || Less(m.smallest, f.smallest)
    requires g in r && h in r ==> f in r || Less(f.smallest, g.smallest) || Less(h.smallest, f.smallest)
    ensures !Less(f.smallest, g.smallest) && !Less(h.smallest, f.smallest) ==> f in r + [b]
  {
    assert forall x :: x in r + [b] <==> x in r || x == b;
  }

  /** Two files of a sorted level are the same file, or one ends before the other starts. */
  lemma FileOrder(files: seq<File>, f: File, g: File)
    requires FilesOk(files) && SortedDisjoint(files) && f in files && g in files
    ensures f == g || (Before(f.largest, g.smallest) && Before(f.smallest, g.smallest))
                   || (Before(g.largest, f.smallest) && Before(g.smallest, f.smallest))
  {
    var i :| 0 <= i < |files| && files[i] == f;
    var j :| 0 <= j < |files| && files[j] == g;
    FileBounds(f, f.entries[0]);
    FileBounds(g, g.entries[0]);
  }
}
