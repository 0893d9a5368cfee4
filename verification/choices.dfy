/**
 The choices of the version set are determined: the conditions that PickCompaction and CompactRange are proved to meet
 leave room for one pair of inputs only.
 */
module Choices {
  import opened Inputs
  import opened Keys
  import opened Reads
  import opened Selection
  import opened Versions

  lemma RangeIsUnique(files: seq<File>, a: InternalKey, b: InternalKey, c: InternalKey, d: InternalKey)
    requires IsSmallestKey(files, a) && IsLargestKey(files, b) && IsSmallestKey(files, c) && IsLargestKey(files, d)
    ensures a == c && b == d
  {
    CompareIsTotalOrder(a, c, a);
    CompareIsTotalOrder(b, d, b);
  }

  lemma ClosureIsUnique(files: seq<File>, lo: Bound, hi: Bound, a: seq<File>, b: seq<File>)
    requires IsClosure(files, lo, hi, a) && IsClosure(files, lo, hi, b)
    ensures a == b
  {
    var p, q :| LeastClosed(files, lo, hi, p, q) && a == Overlapping(files, p, q);
    var r, s :| LeastClosed(files, lo, hi, r, s) && b == Overlapping(files, r, s);
    assert Within(p, q, r, s) && Within(r, s, p, q);
  }

  lemma OverlapIsUnique(files: seq<File>, level: nat, some: seq<File>, a: seq<File>, b: seq<File>)
    requires IsOverlapOf(files, level, some, a) && IsOverlapOf(files, level, some, b)
    ensures a == b
  {
    var p, q :| IsSmallestKey(some, p) && IsLargestKey(some, q) && IsOverlap(files, level, p.user, q.user, a);
    var r, s :| IsSmallestKey(some, r) && IsLargestKey(some, s) && IsOverlap(files, level, r.user, s.user, b);
    RangeIsUnique(some, p, q, r, s);
    if level == 0 {
      ClosureIsUnique(files, Some(p.user), Some(q.user), a, b);
    }
  }

  lemma NextBoundaryIsUnique(files: seq<File>, some: seq<File>, a: File, b: File)
    requires FilesOk(files) && SortedDisjoint(files) && IsNextBoundary(files, some, a) && IsNextBoundary(files, some, b)
    ensures a == b
  {
    var k :| IsLargestKey(some, k) && ComesFirst(files, k, a);
    var m :| IsLargestKey(some, m) && ComesFirst(files, m, b);
    LargestKeyIsUnique(some, k);
    FileOrder(files, a, b);
  }

  lemma NoNextBoundary(files: seq<File>, some: seq<File>, b: File)
    requires NoBoundaryLeft(files, some)
    ensures !IsNextBoundary(files, some, b)
  {
  }

  lemma LinkAt(files: seq<File>, chosen: seq<File>, r: seq<File>, i: nat)
    requires IsBoundaryChain(files, chosen, r) && |chosen| <= i < |r|
    ensures IsNextBoundary(files, r[..i], r[i])
  {
    assert r[..i] == r[..i];
  }

  lemma LinksAgree(files: seq<File>, chosen: seq<File>, a: seq<File>, b: seq<File>, i: nat)
    requires FilesOk(files) && SortedDisjoint(files)
    requires IsBoundaryChain(files, chosen, a) && IsBoundaryChain(files, chosen, b)
    requires |chosen| <= i < |a| && i < |b| && a[..i] == b[..i]
    ensures a[i] == b[i]
  {
    LinkAt(files, chosen, a, i);
    LinkAt(files, chosen, b, i);
    NextBoundaryIsUnique(files, a[..i], a[i], b[i]);
  }

  /** Two lists that agree at every place up to which they agree. */
  lemma {:induction false} AgreeUpTo<T>(a: seq<T>, b: seq<T>, k: nat, n: nat)
    requires k <= n <= |a| && n <= |b| && a[..k] == b[..k]
    requires forall i {:trigger a[..i]} | k <= i < |a| && i < |b| && a[..i] == b[..i] :: a[i] == b[i]
    ensures a[..n] == b[..n]
  {
    if k < n {
      AgreeUpTo(a, b, k, n - 1);
      assert a[..n] == a[..n - 1] + [a[n - 1]] && b[..n] == b[..n - 1] + [b[n - 1]];
    }
  }

  lemma ChainsAgree(files: seq<File>, chosen: seq<File>, a: seq<File>, b: seq<File>, n: nat)
    requires FilesOk(files) && SortedDisjoint(files)
    requires IsBoundaryChain(files, chosen, a) && IsBoundaryChain(files, chosen, b)
    requires |chosen| <= n <= |a| && n <= |b|
    ensures a[..n] == b[..n]
  {
    forall i {:trigger a[..i]} | |chosen| <= i < |a| && i < |b| && a[..i] == b[..i]
      ensures a[i] == b[i]
    {
      LinksAgree(files, chosen, a, b, i);
    }
    assert a[..|chosen|] == chosen == b[..|chosen|];
    AgreeUpTo(a, b, |chosen|, n);
  }

  /** A chain ends only where no boundary file is left. */
  lemma ChainEnds(files: seq<File>, chosen: seq<File>, a: seq<File>, b: seq<File>)
    requires IsBoundaryChain(files, chosen, a) && IsBoundaryChain(files, chosen, b)
    requires |a| <= |b| && a == b[..|a|]
    ensures a == b
  {
    if |a| < |b| {
      LinkAt(files, chosen, b, |a|);
      NoNextBoundary(files, a, b[|a|]);
    }
  }

  lemma ChainIsUnique(files: seq<File>, level: nat, chosen: seq<File>, a: seq<File>, b: seq<File>)
    requires LevelOk(files, level) && (level == 0 ==> NoBoundaryLeft(files, chosen))
    requires IsBoundaryChain(files, chosen, a) && IsBoundaryChain(files, chosen, b)
    ensures a == b
  {
    if level == 0 {
      assert a[..|chosen|] == chosen && b[..|chosen|] == chosen;
      assert IsBoundaryChain(files, chosen, chosen);
      ChainEnds(files, chosen, chosen, a);
      ChainEnds(files, chosen, chosen, b);
    } else if |a| <= |b| {
      ChainsAgree(files, chosen, a, b, |a|);
      assert a[..|a|] == a;
      ChainEnds(files, chosen, a, b);
    } else {
      ChainsAgree(files, chosen, b, a, |b|);
      assert b[..|b|] == b;
      ChainEnds(files, chosen, b, a);
    }
  }

  lemma ClosureNeedsNoBoundary(files: seq<File>, lo: Bound, hi: Bound, chosen: seq<File>)
    requires FilesOk(files) && IsClosure(files, lo, hi, chosen)
    ensures NoBoundaryLeft(files, chosen)
  {
    var p, q :| LeastClosed(files, lo, hi, p, q) && chosen == Overlapping(files, p, q);
    ClosedRangeIsUserClosed(files, p, q);
    UserClosedHasNoBoundary(files, chosen);
  }

  lemma OverlapNeedsNoBoundary(files: seq<File>, some: seq<File>, chosen: seq<File>)
    requires FilesOk(files) && IsOverlapOf(files, 0, some, chosen)
    ensures NoBoundaryLeft(files, chosen)
  {
    var p, q :| IsSmallestKey(some, p) && IsLargestKey(some, q) && IsOverlap(files, 0, p.user, q.user, chosen);
    ClosureNeedsNoBoundary(files, Some(p.user), Some(q.user), chosen);
  }

  /** The way from an overlap to its chain. */
  lemma SameChain(files: seq<File>, level: nat, all: seq<File>, o: seq<File>, p: seq<File>, a: seq<File>, b: seq<File>)
    requires LevelOk(files, level) && IsOverlapOf(files, level, all, o) && IsOverlapOf(files, level, all, p)
    requires IsBoundaryChain(files, o, a) && IsBoundaryChain(files, p, b)
    ensures a == b
  {
    OverlapIsUnique(files, level, all, o, p);
    if level == 0 {
      OverlapNeedsNoBoundary(files, all, o);
    }
    ChainIsUnique(files, level, o, a, b);
  }

  lemma OverlapIn(files: seq<File>, level: nat, all: seq<File>, r: seq<File>) returns (o: seq<File>)
    requires IsExpansion(files, level, all, r)
    ensures IsOverlapOf(files, level, all, o) && IsBoundaryChain(files, o, r)
  {
    o :| IsOverlapOf(files, level, all, o) && IsBoundaryChain(files, o, r);
  }

  lemma ExpansionIsUnique(files: seq<File>, level: nat, all: seq<File>, a: seq<File>, b: seq<File>)
    requires LevelOk(files, level) && IsExpansion(files, level, all, a) && IsExpansion(files, level, all, b)
    ensures a == b
  {
    var o := OverlapIn(files, level, all, a);
    var p := OverlapIn(files, level, all, b);
    SameChain(files, level, all, o, p, a, b);
  }

  lemma SameGrowth(v: Version, level: nat, maxFileSize: nat, inputs0: seq<File>, inputs1: seq<File>, more: seq<File>,
                   a0: seq<File>, a1: seq<File>, b0: seq<File>, b1: seq<File>)
    requires level + 1 < NUM_LEVELS == |v|
    requires GrowsInto(v, level, maxFileSize, inputs0, inputs1, more, a0, a1)
    requires GrowsInto(v, level, maxFileSize, inputs0, inputs1, more, b0, b1)
    ensures a0 == b0 && a1 == b1
  {
    if |more| > |inputs0| && TotalFileSize(inputs1) + TotalFileSize(more) < 25 * maxFileSize {
      var x := ShareOf(v, level, maxFileSize, inputs0, inputs1, more, a0, a1);
      var y := ShareOf(v, level, maxFileSize, inputs0, inputs1, more, b0, b1);
      OverlapIsUnique(v[level + 1], level + 1, more, x, y);
    }
  }

  lemma ShareOf(v: Version, level: nat, maxFileSize: nat, inputs0: seq<File>, inputs1: seq<File>, more: seq<File>,
                r0: seq<File>, r1: seq<File>)
    returns (share: seq<File>)
    requires level + 1 < NUM_LEVELS == |v| && GrowsInto(v, level, maxFileSize, inputs0, inputs1, more, r0, r1)
    requires |more| > |inputs0| && TotalFileSize(inputs1) + TotalFileSize(more) < 25 * maxFileSize
    ensures IsOverlapOf(v[level + 1], level + 1, more, share)
    ensures if |share| == |inputs1| then r0 == more && r1 == share else r0 == inputs0 && r1 == inputs1
  {
    share :| IsOverlapOf(v[level + 1], level + 1, more, share)
      && if |share| == |inputs1| then r0 == more && r1 == share else r0 == inputs0 && r1 == inputs1;
  }

  lemma ExpansionOf(v: Version, level: nat, maxFileSize: nat, inputs0: seq<File>, inputs1: seq<File>,
                    r0: seq<File>, r1: seq<File>)
    returns (more: seq<File>)
    requires level + 1 < NUM_LEVELS == |v| && inputs1 != []
    requires IsGrown(v, level, maxFileSize, inputs0, inputs1, r0, r1)
    ensures IsExpansion(v[level], level, inputs0 + inputs1, more)
    ensures GrowsInto(v, level, maxFileSize, inputs0, inputs1, more, r0, r1)
  {
    more :| IsExpansion(v[level], level, inputs0 + inputs1, more)
      && GrowsInto(v, level, maxFileSize, inputs0, inputs1, more, r0, r1);
  }

  lemma GrowthIsUnique(v: Version, level: nat, maxFileSize: nat, inputs0: seq<File>, inputs1: seq<File>,
                       a0: seq<File>, a1: seq<File>, b0: seq<File>, b1: seq<File>)
    requires level + 1 < NUM_LEVELS == |v| && LevelOk(v[level], level)
    requires IsGrown(v, level, maxFileSize, inputs0, inputs1, a0, a1)
    requires IsGrown(v, level, maxFileSize, inputs0, inputs1, b0, b1)
    ensures a0 == b0 && a1 == b1
  {
    if inputs1 != [] {
      var x := ExpansionOf(v, level, maxFileSize, inputs0, inputs1, a0, a1);
      var y := ExpansionOf(v, level, maxFileSize, inputs0, inputs1, b0, b1);
      ExpansionIsUnique(v[level], level, inputs0 + inputs1, x, y);
      SameGrowth(v, level, maxFileSize, inputs0, inputs1, x, a0, a1, b0, b1);
    }
  }

  lemma SameCompletion(v: Version, level: nat, maxFileSize: nat, chosen: seq<File>, x0: seq<File>, x1: seq<File>,
                       y0: seq<File>, y1: seq<File>)
    requires level + 1 < NUM_LEVELS == |v| && LevelOk(v[level], level)
    requires level == 0 ==> NoBoundaryLeft(v[level], chosen)
    requires IsBoundaryChain(v[level], chosen, x0) && IsOverlapOf(v[level + 1], level + 1, x0, x1)
    requires IsBoundaryChain(v[level], chosen, y0) && IsOverlapOf(v[level + 1], level + 1, y0, y1)
    ensures x0 == y0 && x1 == y1
  {
    ChainIsUnique(v[level], level, chosen, x0, y0);
    OverlapIsUnique(v[level + 1], level + 1, x0, x1, y1);
  }

  lemma CompletedParts(v: Version, level: nat, maxFileSize: nat, chosen: seq<File>, r0: seq<File>, r1: seq<File>)
    returns (inputs0: seq<File>, inputs1: seq<File>)
    requires level + 1 < NUM_LEVELS == |v| && IsCompleted(v, level, maxFileSize, chosen, r0, r1)
    ensures IsBoundaryChain(v[level], chosen, inputs0) && IsOverlapOf(v[level + 1], level + 1, inputs0, inputs1)
    ensures IsGrown(v, level, maxFileSize, inputs0, inputs1, r0, r1)
  {
    inputs0, inputs1 :| IsBoundaryChain(v[level], chosen, inputs0)
      && IsOverlapOf(v[level + 1], level + 1, inputs0, inputs1)
      && IsGrown(v, level, maxFileSize, inputs0, inputs1, r0, r1);
  }

  /** From the chosen files on, nothing is left open. */
  lemma CompletionIsUnique(v: Version, level: nat, maxFileSize: nat, chosen: seq<File>,
                           a0: seq<File>, a1: seq<File>, b0: seq<File>, b1: seq<File>)
    requires level + 1 < NUM_LEVELS == |v| && LevelOk(v[level], level)
    requires level == 0 ==> NoBoundaryLeft(v[level], chosen)
    requires IsCompleted(v, level, maxFileSize, chosen, a0, a1) && IsCompleted(v, level, maxFileSize, chosen, b0, b1)
    ensures a0 == b0 && a1 == b1
  {
    var x0, x1 := CompletedParts(v, level, maxFileSize, chosen, a0, a1);
    var y0, y1 := CompletedParts(v, level, maxFileSize, chosen, b0, b1);
    SameCompletion(v, level, maxFileSize, chosen, x0, x1, y0, y1);
    GrowthIsUnique(v, level, maxFileSize, x0, x1, a0, a1, b0, b1);
  }

  lemma PickIsUnique(v: Version, pointers: seq<Option<InternalKey>>, t: Trigger, f: File, g: File)
    requires t.level < NUM_LEVELS == |v| == |pointers| && IsPicked(v, pointers, t, f) && IsPicked(v, pointers, t, g)
    ensures f == g
  {
  }

  lemma StartIsUnique(files: seq<File>, level: nat, f: File, a: seq<File>, b: seq<File>)
    requires FilesOk(files) && IsStart(files, level, f, a) && IsStart(files, level, f, b)
    ensures a == b && (level == 0 ==> NoBoundaryLeft(files, a))
  {
    if level == 0 {
      OverlapIsUnique(files, 0, [f], a, b);
      OverlapNeedsNoBoundary(files, [f], a);
    }
  }

  lemma SamePick(v: Version, pointers: seq<Option<InternalKey>>, t: Trigger, f: File, x: seq<File>, g: File,
                 y: seq<File>)
    requires t.level < NUM_LEVELS == |v| == |pointers| && LevelOk(v[t.level], t.level)
    requires IsPicked(v, pointers, t, f) && IsStart(v[t.level], t.level, f, x)
    requires IsPicked(v, pointers, t, g) && IsStart(v[t.level], t.level, g, y)
    ensures x == y && (t.level == 0 ==> NoBoundaryLeft(v[t.level], x))
  {
    PickIsUnique(v, pointers, t, f, g);
    StartIsUnique(v[t.level], t.level, f, x, y);
  }

  lemma AutomaticParts(v: Version, pointers: seq<Option<InternalKey>>, maxFileSize: nat, t: Trigger,
                       r0: seq<File>, r1: seq<File>)
    returns (f: File, chosen: seq<File>)
    requires t.level + 1 < NUM_LEVELS == |v| == |pointers| && IsAutomatic(v, pointers, maxFileSize, t, r0, r1)
    ensures IsPicked(v, pointers, t, f) && IsStart(v[t.level], t.level, f, chosen)
    ensures IsCompleted(v, t.level, maxFileSize, chosen, r0, r1)
  {
    f, chosen :| IsPicked(v, pointers, t, f) && IsStart(v[t.level], t.level, f, chosen)
      && IsCompleted(v, t.level, maxFileSize, chosen, r0, r1);
  }

  /** The automatic choice follows from the version, the compaction pointers and the trigger alone. */
  lemma AutomaticIsUnique(v: Version, pointers: seq<Option<InternalKey>>, maxFileSize: nat, t: Trigger,
                          a0: seq<File>, a1: seq<File>, b0: seq<File>, b1: seq<File>)
    requires t.level + 1 < NUM_LEVELS == |v| == |pointers| && LevelOk(v[t.level], t.level)
    requires IsAutomatic(v, pointers, maxFileSize, t, a0, a1) && IsAutomatic(v, pointers, maxFileSize, t, b0, b1)
    ensures a0 == b0 && a1 == b1
  {
    var f, x := AutomaticParts(v, pointers, maxFileSize, t, a0, a1);
    var g, y := AutomaticParts(v, pointers, maxFileSize, t, b0, b1);
    SamePick(v, pointers, t, f, x, g, y);
    CompletionIsUnique(v, t.level, maxFileSize, x, a0, a1, b0, b1);
  }

  lemma CutIsUnique(files: seq<File>, limit: nat, m: nat, n: nat)
    requires CutAt(files, limit, m) && CutAt(files, limit, n)
    ensures m == n
  {
    if m < n {
      PrefixIsSmaller(files, m, n - 1);
    } else if n < m {
      PrefixIsSmaller(files, n, m - 1);
    }
  }

  lemma {:induction false} PrefixIsSmaller(files: seq<File>, m: nat, n: nat)
    requires m <= n <= |files|
    ensures TotalFileSize(files[..m]) <= TotalFileSize(files[..n])
    decreases n
  {
    if m < n {
      PrefixIsSmaller(files, m, n - 1);
      assert files[..n] == files[..n - 1] + [files[n - 1]];
      TotalFileSizeStep(files[..n - 1], files[n - 1]);
    }
  }

  lemma SameManualChoice(files: seq<File>, level: nat, lo: Bound, hi: Bound, limit: nat, x: seq<File>, y: seq<File>)
    requires FilesOk(files) && IsManualChoice(files, level, lo, hi, limit, x)
    requires IsManualChoice(files, level, lo, hi, limit, y)
    ensures x == y && (level == 0 ==> NoBoundaryLeft(files, x))
  {
    if level == 0 {
      ClosureIsUnique(files, lo, hi, x, y);
      ClosureNeedsNoBoundary(files, lo, hi, x);
    } else {
      var m: nat :| CutAt(Overlapping(files, lo, hi), limit, m) && x == Overlapping(files, lo, hi)[..m];
      var n: nat :| CutAt(Overlapping(files, lo, hi), limit, n) && y == Overlapping(files, lo, hi)[..n];
      CutIsUnique(Overlapping(files, lo, hi), limit, m, n);
    }
  }

  /** So does the manual choice, from the version and the range. */
  lemma ManualIsUnique(v: Version, level: nat, lo: Bound, hi: Bound, maxFileSize: nat,
                       a0: seq<File>, a1: seq<File>, b0: seq<File>, b1: seq<File>)
    requires level + 1 < NUM_LEVELS == |v| && LevelOk(v[level], level)
    requires IsManual(v, level, lo, hi, maxFileSize, a0, a1) && IsManual(v, level, lo, hi, maxFileSize, b0, b1)
    ensures a0 == b0 && a1 == b1
  {
    var x :| IsManualChoice(v[level], level, lo, hi, maxFileSize, x)
      && IsCompleted(v, level, maxFileSize, x, a0, a1);
    var y :| IsManualChoice(v[level], level, lo, hi, maxFileSize, y)
      && IsCompleted(v, level, maxFileSize, y, b0, b1);
    SameManualChoice(v[level], level, lo, hi, maxFileSize, x, y);
    CompletionIsUnique(v, level, maxFileSize, x, a0, a1, b0, b1);
  }
}
