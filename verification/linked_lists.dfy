/**
 Circular doubly linked lists with dummy heads, as the cache threads them through its handles: unlinking an entry and
 linking it in before a head, against plain sequences (LRU_Remove and LRU_Append in cache.cc).
 */
module LinkedLists {

  /** A handle, or the head of a list. */
  type Id = nat

  /** From the head through the entries, oldest first. */
  function Ring(head: Id, entries: seq<Id>): seq<Id> {
    [head] + entries
  }

  /** The element after the i-th, around the ring. */
  function After(ring: seq<Id>, i: nat): Id
    requires i < |ring|
  {
    if i + 1 < |ring| then ring[i + 1] else ring[0]
  }

  ghost predicate NoRepeats(s: seq<Id>) {
    forall i, j | 0 <= i < j < |s| :: s[i] != s[j]
  }

  ghost predicate LinkAt(next: map<Id, Id>, prev: map<Id, Id>, ring: seq<Id>, i: nat)
    requires i < |ring|
  {
    ring[i] in next && next[ring[i]] == After(ring, i) && After(ring, i) in prev && prev[After(ring, i)] == ring[i]
  }

  /** The pointers thread this ring. */
  ghost predicate Threads(next: map<Id, Id>, prev: map<Id, Id>, ring: seq<Id>) {
    NoRepeats(ring) && forall i {:trigger LinkAt(next, prev, ring, i)} | 0 <= i < |ring| :: LinkAt(next, prev, ring, i)
  }

  function Without(s: seq<Id>, i: nat): seq<Id>
    requires i < |s|
  {
    s[..i] + s[i + 1..]
  }

  /** A ring without its i-th element, the pointers around the gap closed. */
  lemma UnlinkThreads(next: map<Id, Id>, prev: map<Id, Id>, ring: seq<Id>, i: nat)
    requires Threads(next, prev, ring) && 0 < i < |ring|
    ensures var e := ring[i];
            && e in next && e in prev
            && Threads(next[prev[e] := next[e]], prev[next[e] := prev[e]], Without(ring, i))
  {
    var e := ring[i];
    assert LinkAt(next, prev, ring, i) && LinkAt(next, prev, ring, i - 1);
    var n, p, r := next[prev[e] := next[e]], prev[next[e] := prev[e]], Without(ring, i);
    forall k | 0 <= k < |r|
      ensures LinkAt(n, p, r, k)
    {
      var j := if k < i then k else k + 1;
      assert LinkAt(next, prev, ring, j) && r[k] == ring[j];
      if k == i - 1 {
        assert After(r, k) == After(ring, i);
      } else {
        assert After(r, k) == After(ring, j);
      }
    }
  }

  /** A ring that shares no element with the pointers that change stays as it is. */
  lemma OtherRingStays(next: map<Id, Id>, prev: map<Id, Id>, ring: seq<Id>, next': map<Id, Id>, prev': map<Id, Id>)
    requires Threads(next, prev, ring)
    requires forall x | x in ring && x in next :: x in next' && next'[x] == next[x]
    requires forall x | x in ring && x in prev :: x in prev' && prev'[x] == prev[x]
    ensures Threads(next', prev', ring)
  {
    forall i | 0 <= i < |ring|
      ensures LinkAt(next', prev', ring, i)
    {
      assert LinkAt(next, prev, ring, i) && After(ring, i) in ring;
    }
  }

  /** A ring with one more element before its head. */
  lemma LinkThreads(next: map<Id, Id>, prev: map<Id, Id>, ring: seq<Id>, e: Id)
    requires ring != [] && Threads(next, prev, ring) && e !in ring
    ensures var head := ring[0];
            && head in prev
            && Threads(next[e := head][prev[head] := e], prev[e := prev[head]][head := e], ring + [e])
  {
    var head, last := ring[0], |ring| - 1;
    assert LinkAt(next, prev, ring, last);
    var n, p, r := next[e := head][prev[head] := e], prev[e := prev[head]][head := e], ring + [e];
    forall k | 0 <= k < |r|
      ensures LinkAt(n, p, r, k)
    {
      if k < last {
        assert LinkAt(next, prev, ring, k) && After(r, k) == After(ring, k);
        assert ring[k + 1] != head;
      }
    }
  }

  lemma WithoutKeepsDistinct(a: seq<Id>, b: seq<Id>, i: nat)
    requires NoRepeats(a + b)
    ensures i < |a| ==> NoRepeats(Without(a, i) + b)
    ensures i < |b| ==> NoRepeats(a + Without(b, i))
  {
    var all := a + b;
    if i < |a| {
      var some := Without(a, i) + b;
      assert forall k | 0 <= k < |some| :: some[k] == all[if k < i then k else k + 1];
    }
    if i < |b| {
      var some := a + Without(b, i);
      assert forall k | 0 <= k < |some| :: some[k] == all[if k < |a| + i then k else k + 1];
    }
  }

  lemma AppendKeepsDistinct(a: seq<Id>, b: seq<Id>, e: Id)
    requires NoRepeats(a + b) && e !in a && e !in b
    ensures NoRepeats((a + [e]) + b) && NoRepeats(a + (b + [e]))
  {
    var all, more := a + b, (a + [e]) + b;
    assert forall k | 0 <= k < |more| && k != |a| :: more[k] == all[if k < |a| then k else k - 1];
    assert forall k | 0 <= k < |all| :: all[k] == if k < |a| then a[k] else b[k - |a|];
    assert forall k | 0 <= k < |all| :: all[k] != e;
    var last := a + (b + [e]);
    assert forall k | 0 <= k < |all| :: last[k] == all[k];
  }

  /** The sequence without this element. */
  function Dropped(s: seq<Id>, e: Id): seq<Id> {
    if s == [] then [] else (if s[0] == e then [] else [s[0]]) + Dropped(s[1..], e)
  }

  lemma {:induction false} DroppedNever(s: seq<Id>, e: Id)
    requires e !in s
    ensures Dropped(s, e) == s
  {
    if s != [] {
      DroppedNever(s[1..], e);
      assert s == [s[0]] + s[1..];
    }
  }

  lemma {:induction false} DroppedOnce(s: seq<Id>, e: Id, i: nat)
    requires i < |s| && s[i] == e && forall j | 0 <= j < |s| && j != i :: s[j] != e
    ensures Dropped(s, e) == Without(s, i)
  {
    if i == 0 {
      DroppedNever(s[1..], e);
    } else {
      DroppedOnce(s[1..], e, i - 1);
      assert Without(s, i) == [s[0]] + Without(s[1..], i - 1);
    }
  }

  lemma {:induction false} DroppedHolds(s: seq<Id>, e: Id)
    ensures forall x :: x in Dropped(s, e) <==> x in s && x != e
  {
    if s != [] {
      DroppedHolds(s[1..], e);
      assert s == [s[0]] + s[1..];
    }
  }

  /** The two lists of a cache. */
  class Lists {
    const lruHead: Id
    const inUseHead: Id
    var next: map<Id, Id>
    var prev: map<Id, Id>
    ghost var lru: seq<Id>
    ghost var inUse: seq<Id>

    ghost predicate Valid()
      reads this
    {
      && Threads(next, prev, Ring(lruHead, lru))
      && Threads(next, prev, Ring(inUseHead, inUse))
      && NoRepeats(Ring(lruHead, lru) + Ring(inUseHead, inUse))
    }

    constructor ()
      ensures Valid() && lru == [] && inUse == [] && lruHead == 0 && inUseHead == 1
    {
      lruHead, inUseHead := 0, 1;
      next, prev := map[0 := 0, 1 := 1], map[0 := 0, 1 := 1];
      lru, inUse := [], [];
    }

    lemma Apart(x: Id, y: Id)
      requires Valid() && x in Ring(lruHead, lru) && y in Ring(inUseHead, inUse)
      ensures x != y
    {
      var a, b := Ring(lruHead, lru), Ring(inUseHead, inUse);
      var i :| 0 <= i < |a| && a[i] == x;
      var j :| 0 <= j < |b| && b[j] == y;
      assert (a + b)[i] == x && (a + b)[|a| + j] == y;
    }

    /** lru_.next, the oldest entry; nothing if the list is empty. */
    method Oldest() returns (e: Id, found: bool)
      requires Valid()
      ensures found <==> lru != []
      ensures found ==> e == lru[0]
    {
      assert LinkAt(next, prev, Ring(lruHead, lru), 0);
      e := next[lruHead];
      found := e != lruHead;
    }

    lemma UnlinkLru(e: Id, i: nat)
      requires Valid() && i < |lru| && lru[i] == e
      ensures e in next && e in prev
      ensures Threads(next[prev[e] := next[e]], prev[next[e] := prev[e]], Ring(lruHead, Without(lru, i)))
      ensures Threads(next[prev[e] := next[e]], prev[next[e] := prev[e]], Ring(inUseHead, inUse))
      ensures NoRepeats(Ring(lruHead, Without(lru, i)) + Ring(inUseHead, inUse))
    {
      var ring, other := Ring(lruHead, lru), Ring(inUseHead, inUse);
      UnlinkThreads(next, prev, ring, i + 1);
      assert LinkAt(next, prev, ring, i + 1) && LinkAt(next, prev, ring, i);
      assert Without(ring, i + 1) == Ring(lruHead, Without(lru, i));
      forall y | y in other
        ensures y != next[e] && y != prev[e]
      {
        Apart(next[e], y);
        Apart(prev[e], y);
      }
      OtherRingStays(next, prev, other, next[prev[e] := next[e]], prev[next[e] := prev[e]]);
      WithoutKeepsDistinct(ring, other, i + 1);
    }

    lemma UnlinkInUse(e: Id, i: nat)
      requires Valid() && i < |inUse| && inUse[i] == e
      ensures e in next && e in prev
      ensures Threads(next[prev[e] := next[e]], prev[next[e] := prev[e]], Ring(inUseHead, Without(inUse, i)))
      ensures Threads(next[prev[e] := next[e]], prev[next[e] := prev[e]], Ring(lruHead, lru))
      ensures NoRepeats(Ring(lruHead, lru) + Ring(inUseHead, Without(inUse, i)))
    {
      var ring, other := Ring(inUseHead, inUse), Ring(lruHead, lru);
      UnlinkThreads(next, prev, ring, i + 1);
      assert LinkAt(next, prev, ring, i + 1) && LinkAt(next, prev, ring, i);
      assert Without(ring, i + 1) == Ring(inUseHead, Without(inUse, i));
      forall y | y in other
        ensures y != next[e] && y != prev[e]
      {
        Apart(y, next[e]);
        Apart(y, prev[e]);
      }
      OtherRingStays(next, prev, other, next[prev[e] := next[e]], prev[next[e] := prev[e]]);
      WithoutKeepsDistinct(other, ring, i + 1);
    }

    /** LRU_Remove: the same two assignments, whichever list the entry is in. */
    method Remove(e: Id)
      requires Valid() && (e in lru || e in inUse)
      modifies this
      ensures Valid()
      ensures lru == Dropped(old(lru), e) && inUse == Dropped(old(inUse), e)
    {
      ghost var lru', inUse' := lru, inUse;
      if e in lru {
        ghost var i :| 0 <= i < |lru| && lru[i] == e;
        UnlinkLru(e, i);
        lru' := Without(lru, i);
      } else {
        ghost var i :| 0 <= i < |inUse| && inUse[i] == e;
        UnlinkInUse(e, i);
        inUse' := Without(inUse, i);
      }
      DroppedIs(e);
      Unlink(e);
      lru, inUse := lru', inUse';
    }

    /** The lists share no entry, and hold none twice: dropping is what leaves one of them as it is. */
    lemma DroppedIs(e: Id)
      requires Valid()
      ensures forall i | 0 <= i < |lru| && lru[i] == e ::
                Dropped(lru, e) == Without(lru, i) && Dropped(inUse, e) == inUse
      ensures forall i | 0 <= i < |inUse| && inUse[i] == e ::
                Dropped(inUse, e) == Without(inUse, i) && Dropped(lru, e) == lru
    {
      var all := Ring(lruHead, lru) + Ring(inUseHead, inUse);
      assert forall i | 0 <= i < |lru| :: all[i + 1] == lru[i];
      assert forall i | 0 <= i < |inUse| :: all[|lru| + 2 + i] == inUse[i];
      forall i | 0 <= i < |lru| && lru[i] == e
        ensures Dropped(lru, e) == Without(lru, i) && Dropped(inUse, e) == inUse
      {
        DroppedOnce(lru, e, i);
        DroppedNever(inUse, e);
      }
      forall i | 0 <= i < |inUse| && inUse[i] == e
        ensures Dropped(inUse, e) == Without(inUse, i) && Dropped(lru, e) == lru
      {
        DroppedOnce(inUse, e, i);
        DroppedNever(lru, e);
      }
    }

    method Unlink(e: Id)
      requires e in next && e in prev
      modifies this`next, this`prev
      ensures next == old(next[prev[e] := next[e]]) && prev == old(prev[next[e] := prev[e]])
    {
      var after, before := next[e], prev[e];
      prev := prev[after := before];
      next := next[before := after];
    }

    /** LRU_Append, to the LRU list: e becomes its newest entry. */
    method AppendToLru(e: Id)
      requires Valid() && e !in Ring(lruHead, lru) && e !in Ring(inUseHead, inUse)
      modifies this
      ensures Valid() && lru == old(lru) + [e] && inUse == old(inUse)
    {
      ghost var ring, other := Ring(lruHead, lru), Ring(inUseHead, inUse);
      LinkThreads(next, prev, ring, e);
      assert LinkAt(next, prev, ring, |ring| - 1);
      assert ring + [e] == Ring(lruHead, lru + [e]);
      forall y | y in other
        ensures y != lruHead && y != prev[lruHead]
      {
        Apart(lruHead, y);
        Apart(prev[lruHead], y);
      }
      OtherRingStays(next, prev, other, next[e := lruHead][prev[lruHead] := e], prev[e := prev[lruHead]][lruHead := e]);
      AppendKeepsDistinct(ring, other, e);
      Link(lruHead, e);
      lru := lru + [e];
    }

    /** LRU_Append, to the in-use list. */
    method AppendToInUse(e: Id)
      requires Valid() && e !in Ring(lruHead, lru) && e !in Ring(inUseHead, inUse)
      modifies this
      ensures Valid() && inUse == old(inUse) + [e] && lru == old(lru)
    {
      ghost var ring, other := Ring(inUseHead, inUse), Ring(lruHead, lru);
      LinkThreads(next, prev, ring, e);
      assert LinkAt(next, prev, ring, |ring| - 1);
      assert ring + [e] == Ring(inUseHead, inUse + [e]);
      forall y | y in other
        ensures y != inUseHead && y != prev[inUseHead]
      {
        Apart(y, inUseHead);
        Apart(y, prev[inUseHead]);
      }
      OtherRingStays(next, prev, other, next[e := inUseHead][prev[inUseHead] := e],
                     prev[e := prev[inUseHead]][inUseHead := e]);
      AppendKeepsDistinct(other, ring, e);
      Link(inUseHead, e);
      inUse := inUse + [e];
    }

    method Link(list: Id, e: Id)
      requires list in prev && e != list && e != prev[list]
      modifies this`next, this`prev
      ensures next == old(next[e := list][prev[list] := e]) && prev == old(prev[e := prev[list]][list := e])
    {
      next := next[e := list];
      prev := prev[e := prev[list]];
      next := next[prev[e] := e];
      prev := prev[next[e] := e];
    }
  }
}
