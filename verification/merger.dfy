/**
 MergingIterator: several sorted iterators run as one cursor over their sorted union, changing direction at will.
 */
module Merger {
  import opened Keys
  import opened Reads
  import opened Versions
  import opened Cursors

  /** merged lists, in order, exactly what the lists hold, and no two lists share an entry. */
  ghost predicate IsMergeOf(merged: seq<Entry>, lists: seq<seq<Entry>>) {
    && Ordered(merged)
    && (forall i | 0 <= i < |lists| :: Ordered(lists[i]))
    && (forall i, e | 0 <= i < |lists| && e in lists[i] :: e in merged)
    && (forall e | e in merged :: exists i :: 0 <= i < |lists| && e in lists[i])
    && (forall i, j, e | 0 <= i < j < |lists| && e in lists[i] :: e !in lists[j])
  }

  // ---------------------------------------------------------------- the union exists

  /** No user key appears in both lists under one sequence number. */
  ghost predicate Apart(a: seq<Entry>, b: seq<Entry>) {
    forall x, y | x in a && y in b && x.key.user == y.key.user :: x.key.sequence != y.key.sequence
  }

  ghost predicate AllApart(lists: seq<seq<Entry>>) {
    && (forall i | 0 <= i < |lists| :: Ordered(lists[i]))
    && forall i, j {:trigger Apart(lists[i], lists[j])} | 0 <= i < j < |lists| :: Apart(lists[i], lists[j])
  }

  ghost function MergeTwo(a: seq<Entry>, b: seq<Entry>): seq<Entry>
    decreases |a| + |b|
  {
    if a == [] then b
    else if b == [] then a
    else if Less(a[0].key, b[0].key) then [a[0]] + MergeTwo(a[1..], b)
    else [b[0]] + MergeTwo(a, b[1..])
  }

  ghost predicate IsUnion(merged: seq<Entry>, a: seq<Entry>, b: seq<Entry>) {
    Ordered(merged) && forall e :: e in merged <==> e in a || e in b
  }

  lemma {:induction false} MergeTwoMeans(a: seq<Entry>, b: seq<Entry>)
    requires Ordered(a) && Ordered(b) && Apart(a, b)
    ensures IsUnion(MergeTwo(a, b), a, b)
    decreases |a| + |b|
  {
    if a != [] && b != [] {
      assert a[0] in a && b[0] in b;
      if Less(a[0].key, b[0].key) {
        MergeTwoMeans(a[1..], b);
        HeadGoesFirst(a, b, MergeTwo(a[1..], b));
      } else {
        MergeTwoMeans(a, b[1..]);
        HeadGoesFirst(b, a, MergeTwo(a, b[1..]));
      }
    }
  }

  lemma HeadGoesFirst(a: seq<Entry>, b: seq<Entry>, rest: seq<Entry>)
    requires a != [] && b != [] && Ordered(a) && Ordered(b) && Before(a[0].key, b[0].key)
    requires Ordered(rest) && forall e :: e in rest <==> e in a[1..] || e in b
    ensures IsUnion([a[0]] + rest, a, b)
  {
    assert a == [a[0]] + a[1..];
    forall e | e in rest
      ensures Before(a[0].key, e.key)
    {
      if e in b {
        var i :| 0 <= i < |b| && b[i] == e;
        assert i > 0 ==> Before(b[0].key, b[i].key);
      } else {
        var i :| 0 <= i < |a[1..]| && a[1..][i] == e;
        assert Before(a[0].key, a[i + 1].key);
      }
    }
  }

  ghost function MergeFirst(lists: seq<seq<Entry>>, n: nat): seq<Entry>
    requires n <= |lists|
  {
    if n == 0 then [] else MergeTwo(MergeFirst(lists, n - 1), lists[n - 1])
  }

  ghost function MergeAll(lists: seq<seq<Entry>>): seq<Entry> {
    MergeFirst(lists, |lists|)
  }

  lemma {:induction false} MergeFirstMeans(lists: seq<seq<Entry>>, n: nat)
    requires AllApart(lists) && n <= |lists|
    ensures Ordered(MergeFirst(lists, n))
    ensures forall e :: e in MergeFirst(lists, n) <==> exists i :: 0 <= i < n && e in lists[i]
  {
    if n > 0 {
      MergeFirstMeans(lists, n - 1);
      var front := MergeFirst(lists, n - 1);
      forall x, y | x in front && y in lists[n - 1] && x.key.user == y.key.user
        ensures x.key.sequence != y.key.sequence
      {
        var i :| 0 <= i < n - 1 && x in lists[i];
        assert Apart(lists[i], lists[n - 1]);
      }
      MergeTwoMeans(front, lists[n - 1]);
    }
  }

  /** Sorted lists without a sequence number in common have a sorted union. */
  lemma MergeExists(lists: seq<seq<Entry>>)
    requires AllApart(lists)
    ensures IsMergeOf(MergeAll(lists), lists)
  {
    MergeFirstMeans(lists, |lists|);
    forall i, j, e | 0 <= i < j < |lists| && e in lists[i]
      ensures e !in lists[j]
    {
      assert Apart(lists[i], lists[j]);
    }
  }

  // ---------------------------------------------------------------- where the children stand

  /** The first n entries of a list, and no others, are among the first m merged ones. */
  ghost predicate Split(list: seq<Entry>, n: nat, merged: seq<Entry>, m: nat) {
    && n <= |list| && m <= |merged|
    && (forall i | 0 <= i < n :: list[i] in merged[..m])
    && (forall i | n <= i < |list| :: list[i] in merged[m..])
  }

  lemma PlaceInMerge(merged: seq<Entry>, m: nat, i: nat, e: Entry)
    requires Ordered(merged) && i < |merged| && m <= |merged| && merged[i] == e
    ensures e in merged[..m] <==> i < m
    ensures e in merged[m..] <==> m <= i
  {
    forall j | 0 <= j < |merged| ensures merged[j] == e ==> j == i {
      assert j < i ==> Before(merged[j].key, merged[i].key);
      assert i < j ==> Before(merged[i].key, merged[j].key);
    }
    assert i < m ==> merged[..m][i] == e;
    assert m <= i ==> merged[m..][i - m] == e;
  }

  lemma IndexSplits(es: seq<Entry>, target: InternalKey, i: nat)
    requires Ordered(es) && i < |es|
    ensures i < SeekIndex(es, target) <==> Less(es[i].key, target)
  {
    var n := SeekIndex(es, target);
    assert n < i ==> Before(es[n].key, es[i].key);
  }

  /** A seek splits every list where it splits the merge. */
  lemma SeekSplits(list: seq<Entry>, merged: seq<Entry>, target: InternalKey)
    requires Ordered(list) && Ordered(merged) && forall e | e in list :: e in merged
    ensures Split(list, SeekIndex(list, target), merged, SeekIndex(merged, target))
  {
    var n, m := SeekIndex(list, target), SeekIndex(merged, target);
    forall i | 0 <= i < |list|
      ensures if i < n then list[i] in merged[..m] else list[i] in merged[m..]
    {
      assert list[i] in merged;
      var j :| 0 <= j < |merged| && merged[j] == list[i];
      PlaceInMerge(merged, m, j, list[i]);
      IndexSplits(list, target, i);
      IndexSplits(merged, target, j);
    }
  }

  /** Once merged[m] is known to be elsewhere, a list splits one place further on too. */
  lemma SplitForward(list: seq<Entry>, n: nat, merged: seq<Entry>, m: nat)
    requires Ordered(merged) && Split(list, n, merged, m) && m < |merged| && merged[m] !in list
    ensures Split(list, n, merged, m + 1)
  {
    assert merged[m..] == [merged[m]] + merged[m + 1..];
    assert merged[..m + 1] == merged[..m] + [merged[m]];
  }

  lemma SplitForwardOnto(list: seq<Entry>, n: nat, merged: seq<Entry>, m: nat)
    requires Ordered(list) && Ordered(merged) && Split(list, n, merged, m) && m < |merged|
    requires n < |list| && list[n] == merged[m]
    ensures Split(list, n + 1, merged, m + 1)
  {
    assert merged[m..] == [merged[m]] + merged[m + 1..];
    assert merged[..m + 1] == merged[..m] + [merged[m]];
    assert forall i | n < i < |list| :: Before(list[n].key, list[i].key);
  }

  lemma SplitBackward(list: seq<Entry>, n: nat, merged: seq<Entry>, m: nat)
    requires Ordered(merged) && Split(list, n, merged, m) && 0 < m && merged[m - 1] !in list
    ensures Split(list, n, merged, m - 1)
  {
    assert merged[..m] == merged[..m - 1] + [merged[m - 1]];
    assert merged[m - 1..] == [merged[m - 1]] + merged[m..];
  }

  lemma SplitBackwardOnto(list: seq<Entry>, n: nat, merged: seq<Entry>, m: nat)
    requires Ordered(list) && Ordered(merged) && Split(list, n, merged, m) && 0 < m
    requires 0 < n && list[n - 1] == merged[m - 1]
    ensures Split(list, n - 1, merged, m - 1)
  {
    assert merged[..m] == merged[..m - 1] + [merged[m - 1]];
    assert merged[m - 1..] == [merged[m - 1]] + merged[m..];
    assert forall i | 0 <= i < n - 1 :: Before(list[i].key, list[n - 1].key);
  }

  /** The smallest of the lists' next entries is the next merged entry. */
  lemma NextMerged(list: seq<Entry>, n: nat, merged: seq<Entry>, m: nat)
    requires Ordered(list) && Ordered(merged) && Split(list, n, merged, m)
    ensures n < |list| ==> m < |merged| && (list[n] == merged[m] || Before(merged[m].key, list[n].key))
    ensures m < |merged| && merged[m] in list ==> n < |list| && list[n] == merged[m]
  {
    if n < |list| {
      var j :| 0 <= j < |merged[m..]| && merged[m..][j] == list[n];
      assert j > 0 ==> Before(merged[m].key, merged[m + j].key);
    }
    assert n < |list| ==> forall i | n < i < |list| :: Before(list[n].key, list[i].key);
    if m < |merged| && merged[m] in list {
      var i :| 0 <= i < |list| && list[i] == merged[m];
      PlaceInMerge(merged, m, m, merged[m]);
    }
  }

  lemma PrevMerged(list: seq<Entry>, n: nat, merged: seq<Entry>, m: nat)
    requires Ordered(list) && Ordered(merged) && Split(list, n, merged, m)
    ensures 0 < n ==> 0 < m && (list[n - 1] == merged[m - 1] || Before(list[n - 1].key, merged[m - 1].key))
    ensures 0 < m && merged[m - 1] in list ==> 0 < n && list[n - 1] == merged[m - 1]
  {
    if 0 < n {
      var j :| 0 <= j < |merged[..m]| && merged[..m][j] == list[n - 1];
      assert j < m - 1 ==> Before(merged[j].key, merged[m - 1].key);
    }
    assert 0 < n ==> forall i | 0 <= i < n - 1 :: Before(list[i].key, list[n - 1].key);
    if 0 < m && merged[m - 1] in list {
      var i :| 0 <= i < |list| && list[i] == merged[m - 1];
      PlaceInMerge(merged, m, m - 1, merged[m - 1]);
    }
  }

  datatype Direction = Forward | Reverse

  class MergingIterator {
    const children: seq<ListIterator>
    /** The sorted union of the children, which the iterator never builds. */
    ghost const merged: seq<Entry>
    var current: Option<nat>
    var direction: Direction
    ghost var at: Position

    constructor (children: seq<ListIterator>, ghost merged: seq<Entry>)
      requires forall i, j | 0 <= i < j < |children| :: children[i] != children[j]
      requires IsMergeOf(merged, seq(|children|, i requires 0 <= i < |children| => children[i].entries))
      ensures this.children == children && this.merged == merged
      ensures Inv() && at == None
    {
      this.children, this.merged := children, merged;
      current, direction, at := None, Forward, None;
    }

    /** What never changes: distinct children whose lists merge into the union. */
    ghost predicate Wired() {
      && (forall i, j | 0 <= i < j < |children| :: children[i] != children[j])
      && IsMergeOf(merged, Lists())
    }

    ghost function Lists(): seq<seq<Entry>> {
      seq(|children|, i requires 0 <= i < |children| => children[i].entries)
    }

    ghost function Repr(): set<object> {
      set i | 0 <= i < |children| :: children[i]
    }

    /** Every child, bar one at most, rests on its first entry from merged[m] on. */
    ghost predicate AllAhead(m: nat, except: int)
      reads Repr()
    {
      forall i | 0 <= i < |children| && i != except
        :: children[i].index <= |children[i].entries| && Split(children[i].entries, children[i].index, merged, m)
    }

    /** Every child, bar one at most, rests on its last entry before merged[m], or off the front. */
    ghost predicate AllBehind(m: nat, except: int)
      reads Repr()
    {
      forall i | 0 <= i < |children| && i != except :: Split(children[i].entries, children[i].Looked(), merged, m)
    }

    ghost predicate Inv()
      reads this, Repr()
    {
      && Wired()
      && (current.Some? <==> at.Some?)
      && (at.Some? ==>
            && at.value < |merged| && current.value < |children|
            && children[current.value].Valid()
            && children[current.value].entries[children[current.value].index] == merged[at.value]
            && Split(children[current.value].entries, children[current.value].index, merged, at.value)
            && if direction.Forward? then AllAhead(at.value, current.value) else AllBehind(at.value, current.value))
    }

    predicate Valid()
      reads this
    {
      current.Some?
    }

    /** The place of the entry the iterator is on; past the end when there is none. */
    ghost function Index(): nat
      reads this
    {
      if at.Some? then at.value else |merged|
    }

    /** One past that place; 0 when there is none: where a backward scan has come down to. */
    ghost function Looked(): nat
      reads this
    {
      if at.Some? then at.value + 1 else 0
    }

    function Key(): InternalKey
      requires Inv() && Valid()
      reads this, Repr()
      ensures Key() == merged[at.value].key
    {
      children[current.value].Key()
    }

    function Value(): Value
      requires Inv() && Valid()
      reads this, Repr()
      ensures Value() == merged[at.value].value
    {
      children[current.value].Value()
    }

    lemma ChildFacts(i: nat)
      requires Wired() && i < |children|
      ensures Ordered(children[i].entries) && Ordered(merged) && forall e | e in children[i].entries :: e in merged
    {
      assert Lists()[i] == children[i].entries;
    }

    lemma OnlyChild(i: nat, j: nat, e: Entry)
      requires Wired() && i < |children| && j < |children| && i != j && e in children[i].entries
      ensures e !in children[j].entries
    {
      assert Lists()[i] == children[i].entries && Lists()[j] == children[j].entries;
    }

    lemma SomeChild(m: nat) returns (i: nat)
      requires Wired() && m < |merged|
      ensures i < |children| && merged[m] in children[i].entries
    {
      assert merged[m] in merged;
      i :| 0 <= i < |Lists()| && merged[m] in Lists()[i];
    }

    method FindSmallest(ghost m: nat)
      requires Wired() && m <= |merged| && AllAhead(m, -1)
      modifies this
      ensures direction == old(direction) && at == AtIndex(|merged|, m)
      ensures direction.Forward? ==> Inv()
    {
      var smallest: Option<nat> := None;
      for i := 0 to |children|
        invariant smallest.Some? ==> smallest.value < i && children[smallest.value].Valid()
        invariant forall j | 0 <= j < i && children[j].Valid() ::
                    smallest.Some? && !Less(children[j].Key(), children[smallest.value].Key())
      {
        var child := children[i];
        if child.Valid() {
          if smallest.None? {
            smallest := Some(i);
          } else if Compare(child.Key(), children[smallest.value].Key()) < 0 {
            smallest := Some(i);
          }
        }
      }
      current := smallest;
      at := AtIndex(|merged|, m);
      SmallestIsNext(m);
    }

    lemma SmallestIsNext(m: nat)
      requires Wired() && m <= |merged| && AllAhead(m, -1)
      requires current.Some? ==> current.value < |children| && children[current.value].Valid()
      requires forall j | 0 <= j < |children| && children[j].Valid()
                 :: current.Some? && !Less(children[j].Key(), children[current.value].Key())
      ensures current.Some? <==> m < |merged|
      ensures current.Some? ==> children[current.value].entries[children[current.value].index] == merged[m]
    {
      forall i | 0 <= i < |children|
        ensures children[i].Valid() ==> m < |merged| && !Less(children[i].Key(), merged[m].key)
        ensures children[i].Valid() && children[i].Key() == merged[m].key ==>
                  children[i].entries[children[i].index] == merged[m]
        ensures m < |merged| && merged[m] in children[i].entries ==>
                  children[i].Valid() && children[i].Key() == merged[m].key
      {
        ChildFacts(i);
        NextMerged(children[i].entries, children[i].index, merged, m);
      }
      if m < |merged| {
        var i := SomeChild(m);
      }
    }

    method FindLargest(ghost m: nat)
      requires Wired() && m <= |merged| && AllBehind(m, -1)
      modifies this
      ensures direction == old(direction) && at == Last(m)
      ensures direction.Reverse? ==> Inv()
    {
      var largest: Option<nat> := None;
      var i := |children|;
      while i > 0
        invariant 0 <= i <= |children|
        invariant largest.Some? ==> i <= largest.value < |children| && children[largest.value].Valid()
        invariant forall j | i <= j < |children| && children[j].Valid() ::
                    largest.Some? && !Less(children[largest.value].Key(), children[j].Key())
      {
        i := i - 1;
        var child := children[i];
        if child.Valid() {
          if largest.None? {
            largest := Some(i);
          } else if Compare(child.Key(), children[largest.value].Key()) > 0 {
            largest := Some(i);
          }
        }
      }
      current := largest;
      at := Last(m);
      LargestIsPrevious(m);
    }

    lemma LargestIsPrevious(m: nat)
      requires Wired() && m <= |merged| && AllBehind(m, -1)
      requires current.Some? ==> current.value < |children| && children[current.value].Valid()
      requires forall j | 0 <= j < |children| && children[j].Valid()
                 :: current.Some? && !Less(children[current.value].Key(), children[j].Key())
      ensures current.Some? <==> 0 < m
      ensures current.Some? ==> children[current.value].entries[children[current.value].index] == merged[m - 1]
      ensures current.Some? ==> AllBehind(m - 1, current.value)
      ensures current.Some? ==> Split(children[current.value].entries, children[current.value].index, merged, m - 1)
    {
      forall i | 0 <= i < |children|
        ensures children[i].Valid() ==> 0 < m && !Less(merged[m - 1].key, children[i].Key())
        ensures children[i].Valid() && children[i].Key() == merged[m - 1].key ==>
                  children[i].entries[children[i].index] == merged[m - 1]
        ensures 0 < m && merged[m - 1] in children[i].entries ==>
                  children[i].Valid() && children[i].Key() == merged[m - 1].key
      {
        ChildFacts(i);
        PrevMerged(children[i].entries, children[i].Looked(), merged, m);
      }
      if 0 < m {
        var i := SomeChild(m - 1);
        StepBehind(m);
      }
    }

    lemma StepBehind(m: nat)
      requires Wired() && 0 < m <= |merged| && AllBehind(m, -1) && current.Some? && current.value < |children|
      requires children[current.value].Valid()
                 && children[current.value].entries[children[current.value].index] == merged[m - 1]
      ensures AllBehind(m - 1, current.value)
      ensures Split(children[current.value].entries, children[current.value].index, merged, m - 1)
    {
      var c := current.value;
      forall i | 0 <= i < |children| && i != c ensures Split(children[i].entries, children[i].Looked(), merged, m - 1) {
        ChildFacts(i);
        assert merged[m - 1] in children[c].entries;
        OnlyChild(c, i, merged[m - 1]);
        SplitBackward(children[i].entries, children[i].Looked(), merged, m);
      }
      ChildFacts(c);
      SplitBackwardOnto(children[c].entries, children[c].Looked(), merged, m);
    }

    /** After the current child has stepped off merged[m], every child is ahead at m + 1. */
    lemma StepAhead(m: nat, c: nat)
      requires Wired() && m < |merged| && c < |children| && AllAhead(m, c)
      requires 0 < children[c].index <= |children[c].entries| && children[c].entries[children[c].index - 1] == merged[m]
      requires Split(children[c].entries, children[c].index - 1, merged, m)
      ensures AllAhead(m + 1, -1)
    {
      forall i | 0 <= i < |children| && i != c ensures Split(children[i].entries, children[i].index, merged, m + 1) {
        ChildFacts(i);
        assert merged[m] in children[c].entries;
        OnlyChild(c, i, merged[m]);
        SplitForward(children[i].entries, children[i].index, merged, m);
      }
      ChildFacts(c);
      SplitForwardOnto(children[c].entries, children[c].index - 1, merged, m);
    }

    // -------------------------------------------------------------- the five movements

    method SeekToFirst()
      requires Wired()
      modifies this, Repr()
      ensures Inv() && at == First(|merged|)
    {
      for i := 0 to |children|
        invariant forall j | 0 <= j < i ::
                    children[j].index <= |children[j].entries|
                      && Split(children[j].entries, children[j].index, merged, 0)
      {
        children[i].SeekToFirst();
        ChildFacts(i);
      }
      direction := Forward;
      FindSmallest(0);
    }

    method SeekToLast()
      requires Wired()
      modifies this, Repr()
      ensures Inv() && at == Last(|merged|)
    {
      for i := 0 to |children|
        invariant forall j | 0 <= j < i :: Split(children[j].entries, children[j].Looked(), merged, |merged|)
      {
        children[i].SeekToLast();
        ChildFacts(i);
        assert merged[..|merged|] == merged;
      }
      direction := Reverse;
      FindLargest(|merged|);
    }

    method Seek(target: InternalKey)
      requires Wired()
      modifies this, Repr()
      ensures Inv() && at == AtIndex(|merged|, SeekIndex(merged, target))
    {
      ghost var m := SeekIndex(merged, target);
      for i := 0 to |children|
        invariant forall j | 0 <= j < i ::
                    children[j].index <= |children[j].entries|
                      && Split(children[j].entries, children[j].index, merged, m)
      {
        children[i].Seek(target);
        ChildFacts(i);
        SeekSplits(children[i].entries, merged, target);
      }
      direction := Forward;
      FindSmallest(m);
    }

    method Next()
      requires Inv() && Valid()
      modifies this, Repr()
      ensures Inv() && at == Following(|merged|, old(at).value)
    {
      ghost var m := at.value;
      if !direction.Forward? {
        SeekOthersAhead(m);
        direction := Forward;
      }
      var c := current.value;
      children[c].Next();
      StepAhead(m, c);
      FindSmallest(m + 1);
    }

    method Prev()
      requires Inv() && Valid()
      modifies this, Repr()
      ensures Inv() && at == Preceding(old(at).value)
    {
      ghost var m := at.value;
      if !direction.Reverse? {
        SeekOthersBehind(m);
        direction := Reverse;
      }
      children[current.value].Prev();
      FindLargest(m);
    }

    /** The loop of Next that turns around: every other child moves to its first entry past the current key. */
    method SeekOthersAhead(ghost m: nat)
      requires Inv() && at == Some(m)
      modifies Repr() - {children[current.value]}
      ensures AllAhead(m, current.value)
    {
      SeekIndexOfEntry(merged, m);
      for i := 0 to |children|
        invariant forall j | 0 <= j < i && j != current.value
          :: children[j].index <= |children[j].entries| && Split(children[j].entries, children[j].index, merged, m)
      {
        if i != current.value {
          children[i].Seek(children[current.value].Key());
          ChildFacts(i);
          SeekSplits(children[i].entries, merged, merged[m].key);
          OnlyChild(current.value, i, merged[m]);
          KeysDiffer(i, m);
          if children[i].Valid() && Compare(children[current.value].Key(), children[i].Key()) == 0 {
            // The code steps past an equal key here; children with distinct keys have none.
            assert false;
          }
        }
      }
    }

    /** The loop of Prev that turns around: every other child moves to its last entry before the current key. */
    method SeekOthersBehind(ghost m: nat)
      requires Inv() && at == Some(m)
      modifies Repr() - {children[current.value]}
      ensures AllBehind(m, current.value)
    {
      SeekIndexOfEntry(merged, m);
      for i := 0 to |children|
        invariant forall j | 0 <= j < i && j != current.value ::
                    Split(children[j].entries, children[j].Looked(), merged, m)
      {
        if i != current.value {
          SeekBehind(i, m);
        }
      }
    }

    /** One child, to its last entry before the current key. */
    method SeekBehind(i: nat, ghost m: nat)
      requires Wired() && m < |merged| && SeekIndex(merged, merged[m].key) == m
      requires current.Some? && current.value < |children| && i < |children| && i != current.value
      requires children[current.value].Valid()
                 && children[current.value].entries[children[current.value].index] == merged[m]
      modifies children[i]
      ensures Split(children[i].entries, children[i].Looked(), merged, m)
    {
      var child := children[i];
      child.Seek(children[current.value].Key());
      ChildFacts(i);
      SeekSplits(child.entries, merged, merged[m].key);
      if child.Valid() {
        child.Prev();
      } else {
        child.SeekToLast();
      }
    }

    lemma KeysDiffer(i: nat, m: nat)
      requires Wired() && i < |children| && m < |merged| && merged[m] !in children[i].entries
      ensures children[i].Valid() ==> Compare(merged[m].key, children[i].Key()) != 0
    {
      ChildFacts(i);
      if children[i].Valid() {
        var e := children[i].entries[children[i].index];
        assert e in merged;
        var j :| 0 <= j < |merged| && merged[j] == e;
        assert j < m ==> Before(e.key, merged[m].key);
        assert m < j ==> Before(merged[m].key, e.key);
      }
    }
  }

  lemma SeekIndexOfEntry(es: seq<Entry>, m: nat)
    requires Ordered(es) && m < |es|
    ensures SeekIndex(es, es[m].key) == m
  {
    var r := SeekIndex(es, es[m].key);
    assert r < m ==> Before(es[r].key, es[m].key);
  }
}
