/**
 Version edits and VersionSet::Builder: how a set of deletions and additions turns one version into the next.
 */
module VersionBuilder {
  import opened Keys
  import opened Versions

  /** The file part of a version edit. Deletions form a set; additions keep their order. */
  datatype VersionEdit = VersionEdit(deleted: set<(nat, nat)>, added: seq<(nat, File)>)

  /** Builder::BySmallestKey. */
  predicate BySmallest(f: File, g: File) {
    Compare(f.smallest, g.smallest) < 0 || (Compare(f.smallest, g.smallest) == 0 && f.number < g.number)
  }

  ghost predicate SortedBySmallest(files: seq<File>) {
    forall i, j | 0 <= i < j < |files| :: BySmallest(files[i], files[j])
  }

  lemma BySmallestIsOrder(f: File, g: File, h: File)
    ensures BySmallest(f, g) && BySmallest(g, h) ==> BySmallest(f, h)
    ensures !(BySmallest(f, g) && BySmallest(g, f))
    ensures !BySmallest(f, g) && !BySmallest(g, f) ==> f.smallest == g.smallest && f.number == g.number
  {
  }

  /** Insertion into the ordered set of added files: an equivalent file already there wins. */
  function InsertSorted(files: seq<File>, f: File): seq<File> {
    if files == [] then [f]
    else if BySmallest(f, files[0]) then [f] + files
    else if BySmallest(files[0], f) then [files[0]] + InsertSorted(files[1..], f)
    else files
  }

  /** Interleaves two lists; a base file goes first unless the added file sorts strictly before it. */
  function Merge(base: seq<File>, added: seq<File>): seq<File>
    decreases |base| + |added|
  {
    if base == [] then added
    else if added == [] then base
    else if BySmallest(added[0], base[0]) then [added[0]] + Merge(base, added[1..])
    else [base[0]] + Merge(base[1..], added)
  }

  function WithoutNumbers(files: seq<File>, deleted: set<nat>): seq<File> {
    if files == [] then []
    else (if files[0].number in deleted then [] else [files[0]]) + WithoutNumbers(files[1..], deleted)
  }

  /** One level of SaveTo. */
  function SaveLevel(base: seq<File>, deleted: set<nat>, added: seq<File>): seq<File> {
    WithoutNumbers(Merge(base, added), deleted)
  }

  // ---------------------------------------------------------------- what the pieces contain and how they are ordered

  lemma {:induction false} InsertSortedElements(files: seq<File>, f: File)
    ensures forall g :: g in InsertSorted(files, f) ==> g == f || g in files
    ensures forall g :: g in files ==> g in InsertSorted(files, f)
    ensures f in InsertSorted(files, f) || exists g :: g in files && g.smallest == f.smallest && g.number == f.number
  {
    if files != [] {
      InsertSortedElements(files[1..], f);
      assert files == [files[0]] + files[1..];
      BySmallestIsOrder(f, files[0], f);
    }
  }

  lemma {:induction false} InsertSortedKeepsOrder(files: seq<File>, f: File)
    requires SortedBySmallest(files)
    ensures SortedBySmallest(InsertSorted(files, f))
  {
    if files == [] {
    } else if BySmallest(f, files[0]) {
      forall j | 0 <= j < |files| ensures BySmallest(f, files[j]) {
        BySmallestIsOrder(f, files[0], files[j]);
      }
    } else if BySmallest(files[0], f) {
      InsertSortedKeepsOrder(files[1..], f);
      InsertSortedElements(files[1..], f);
      HeadKeepsOrder(files[0], InsertSorted(files[1..], f));
    }
  }

  lemma HeadKeepsOrder(f: File, files: seq<File>)
    requires SortedBySmallest(files)
    requires forall g | g in files :: BySmallest(f, g)
    ensures SortedBySmallest([f] + files)
  {
  }

  lemma {:induction false} MergeElements(base: seq<File>, added: seq<File>)
    ensures forall f :: f in Merge(base, added) <==> f in base || f in added
    decreases |base| + |added|
  {
    if base != [] && added != [] {
      if BySmallest(added[0], base[0]) {
        MergeElements(base, added[1..]);
        assert added == [added[0]] + added[1..];
      } else {
        MergeElements(base[1..], added);
        assert base == [base[0]] + base[1..];
      }
    }
  }

  /** No file of one list is equivalent, in the builder's order, to a file of the other. */
  ghost predicate NoTies(base: seq<File>, added: seq<File>) {
    forall f, g | f in base && g in added :: f.smallest != g.smallest || f.number != g.number
  }

  lemma {:induction false} MergeSorted(base: seq<File>, added: seq<File>)
    requires SortedBySmallest(base) && SortedBySmallest(added) && NoTies(base, added)
    ensures SortedBySmallest(Merge(base, added))
    decreases |base| + |added|
  {
    if base != [] && added != [] {
      BySmallestIsOrder(added[0], base[0], added[0]);
      if BySmallest(added[0], base[0]) {
        MergeSorted(base, added[1..]);
        MergeElements(base, added[1..]);
        HeadBeforeAll(added[0], base, added[1..]);
        HeadKeepsOrder(added[0], Merge(base, added[1..]));
      } else {
        MergeSorted(base[1..], added);
        MergeElements(base[1..], added);
        HeadBeforeAll(base[0], added, base[1..]);
        HeadKeepsOrder(base[0], Merge(base[1..], added));
      }
    }
  }

  lemma HeadBeforeAll(f: File, others: seq<File>, rest: seq<File>)
    requires others != [] && BySmallest(f, others[0]) && SortedBySmallest(others) && SortedBySmallest([f] + rest)
    ensures forall g | g in others || g in rest :: BySmallest(f, g)
  {
    forall j | 0 <= j < |others| ensures BySmallest(f, others[j]) {
      BySmallestIsOrder(f, others[0], others[j]);
    }
    forall j | 0 <= j < |rest| ensures BySmallest(f, rest[j]) {
      assert ([f] + rest)[0] == f && ([f] + rest)[j + 1] == rest[j];
    }
  }

  lemma {:induction false} WithoutNumbersElements(files: seq<File>, deleted: set<nat>)
    ensures forall f :: f in WithoutNumbers(files, deleted) <==> f in files && f.number !in deleted
  {
    if files != [] {
      WithoutNumbersElements(files[1..], deleted);
      assert files == [files[0]] + files[1..];
    }
  }

  lemma {:induction false} WithoutNumbersSorted(files: seq<File>, deleted: set<nat>)
    requires SortedBySmallest(files)
    ensures SortedBySmallest(WithoutNumbers(files, deleted))
  {
    if files != [] {
      WithoutNumbersSorted(files[1..], deleted);
      WithoutNumbersElements(files[1..], deleted);
      HeadKeepsOrder(files[0], WithoutNumbers(files[1..], deleted));
    }
  }

  /** What a saved level holds, and that it is sorted. */
  lemma SaveLevelMeans(base: seq<File>, deleted: set<nat>, added: seq<File>)
    requires SortedBySmallest(base) && SortedBySmallest(added) && NoTies(base, added)
    ensures SortedBySmallest(SaveLevel(base, deleted, added))
    ensures forall f :: f in SaveLevel(base, deleted, added) <==> (f in base || f in added) && f.number !in deleted
  {
    MergeSorted(base, added);
    MergeElements(base, added);
    WithoutNumbersSorted(Merge(base, added), deleted);
    WithoutNumbersElements(Merge(base, added), deleted);
  }

  /** A sorted list is determined by its elements. */
  lemma {:induction false} SortedIsUnique(a: seq<File>, b: seq<File>)
    requires SortedBySmallest(a) && SortedBySmallest(b)
    requires forall f :: f in a <==> f in b
    ensures a == b
  {
    HasElement(a);
    HasElement(b);
    if a != [] {
      assert a[0] in b && b[0] in a;
      var i :| 0 <= i < |b| && b[i] == a[0];
      var j :| 0 <= j < |a| && a[j] == b[0];
      assert i > 0 ==> BySmallest(b[0], a[0]);
      assert j > 0 ==> BySmallest(a[0], b[0]);
      assert a[0] == b[0];
      forall f ensures f in a[1..] <==> f in b[1..] {
        TailElements(a, f);
        TailElements(b, f);
      }
      SortedIsUnique(a[1..], b[1..]);
      assert a == [a[0]] + a[1..] && b == [b[0]] + b[1..];
    }
  }

  lemma HasElement(a: seq<File>)
    ensures a != [] ==> exists f :: f in a
  {
    if a != [] {
      assert a[0] in a;
    }
  }

  lemma TailElements(a: seq<File>, f: File)
    requires a != [] && SortedBySmallest(a)
    ensures f in a[1..] <==> f in a && f != a[0]
  {
    if f in a && f != a[0] {
      var i :| 0 <= i < |a| && a[i] == f;
      assert a[1..][i - 1] == f;
    }
    if f in a[1..] {
      var i :| 0 <= i < |a[1..]| && a[1..][i] == f;
      assert BySmallest(a[0], a[i + 1]);
    }
  }

  // ---------------------------------------------------------------- one edit applied to one version

  /** Builder::Apply: numbers the edit deletes at a level, unless it also adds them there. */
  function DeletedAt(e: VersionEdit, l: nat): set<nat> {
    (set d | d in e.deleted && d.0 == l :: d.1) - (set a | a in e.added && a.0 == l :: a.1.number)
  }

  function AddedAt(added: seq<(nat, File)>, l: nat): seq<File> {
    if added == [] then []
    else
      var rest := AddedAt(added[..|added| - 1], l);
      var last := added[|added| - 1];
      if last.0 == l then InsertSorted(rest, last.1) else rest
  }

  /** The version a single edit leads to. */
  function ApplyEdit(v: Version, e: VersionEdit): Version {
    seq(NUM_LEVELS, l requires 0 <= l < NUM_LEVELS => SaveLevel(v[l], DeletedAt(e, l), AddedAt(e.added, l)))
  }

  /** Files added to one level under different numbers. */
  ghost predicate AddedDistinct(added: seq<(nat, File)>) {
    forall i, j | 0 <= i < j < |added| :: added[i].1.number != added[j].1.number
  }

  lemma {:induction false} AddedAtMeans(added: seq<(nat, File)>, l: nat)
    ensures SortedBySmallest(AddedAt(added, l))
    ensures forall f :: f in AddedAt(added, l) ==> (l, f) in added
    ensures AddedDistinct(added) ==> forall f :: (l, f) in added ==> f in AddedAt(added, l)
  {
    if added != [] {
      var init, last := added[..|added| - 1], added[|added| - 1];
      assert added == init + [last];
      AddedAtMeans(init, l);
      var rest := AddedAt(init, l);
      InsertSortedKeepsOrder(rest, last.1);
      InsertSortedElements(rest, last.1);
      if AddedDistinct(added) {
        forall g | g in rest ensures g.number != last.1.number {
          var i :| 0 <= i < |init| && init[i] == (l, g);
          assert added[i] == (l, g);
        }
        forall f | (l, f) in added ensures f in AddedAt(added, l) {
          assert (l, f) in init || (l, f) == last;
        }
      }
    }
  }

  /** Every level of the new version: sorted, and holding what was kept and what was added. */
  lemma ApplyEditMeans(v: Version, e: VersionEdit, l: nat)
    requires l < NUM_LEVELS && SortedBySmallest(v[l]) && AddedDistinct(e.added)
    requires forall f, a | f in v[l] && a in e.added && a.0 == l :: f.number != a.1.number
    ensures SortedBySmallest(ApplyEdit(v, e)[l])
    ensures forall f :: f in ApplyEdit(v, e)[l] <==> (f in v[l] && (l, f.number) !in e.deleted) || (l, f) in e.added
  {
    AddedAtMeans(e.added, l);
    SaveLevelMeans(v[l], DeletedAt(e, l), AddedAt(e.added, l));
    forall f ensures f in ApplyEdit(v, e)[l] <==> (f in v[l] && (l, f.number) !in e.deleted) || (l, f) in e.added {
      if f in v[l] {
        assert f.number in DeletedAt(e, l) <==> (l, f.number) in e.deleted;
      }
      if (l, f) in e.added {
        assert f.number !in DeletedAt(e, l);
      }
    }
  }
}
