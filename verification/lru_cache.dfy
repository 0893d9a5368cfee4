/**
 One shard of the LRU cache: reference counts, charges, the two lists and the hash table, over every sequence of
 Insert, Lookup, Release, Erase and Prune (LRUCache in cache.cc).
 */
module LruCaches {
  import opened HandleTables
  import opened Keys
  import opened LinkedLists
  import opened Reads

  datatype Handle = Handle(key: Key, hash: nat, value: Value, charge: nat, inCache: bool, refs: nat)

  function NodeOf(id: Id, h: Handle): Node {
    Node(id, h.key, h.hash)
  }

  ghost function CachedNodes(handles: map<Id, Handle>): set<Node> {
    set id | id in handles && handles[id].inCache :: NodeOf(id, handles[id])
  }

  lemma CachedNodesHold(handles: map<Id, Handle>, n: Node)
    ensures n in CachedNodes(handles) <==> n.id in handles && handles[n.id].inCache && n == NodeOf(n.id, handles[n.id])
  {
  }

  function ChargeOf(handles: map<Id, Handle>, id: Id): nat {
    if id in handles then handles[id].charge else 0
  }

  function Charges(handles: map<Id, Handle>, s: seq<Id>): nat {
    if s == [] then 0 else ChargeOf(handles, s[0]) + Charges(handles, s[1..])
  }

  lemma {:induction false} SameCharges(a: map<Id, Handle>, b: map<Id, Handle>, s: seq<Id>)
    requires forall id | id in s :: ChargeOf(a, id) == ChargeOf(b, id)
    ensures Charges(a, s) == Charges(b, s)
  {
    if s != [] {
      assert s[0] in s && forall id | id in s[1..] :: id in s;
      SameCharges(a, b, s[1..]);
    }
  }

  lemma {:induction false} ChargesAppend(handles: map<Id, Handle>, s: seq<Id>, e: Id)
    ensures Charges(handles, s + [e]) == Charges(handles, s) + ChargeOf(handles, e)
  {
    if s == [] {
      assert [e][1..] == [];
      assert Charges(handles, [e]) == ChargeOf(handles, e) + Charges(handles, []);
      assert s + [e] == [e];
    } else {
      assert (s + [e])[1..] == s[1..] + [e];
      ChargesAppend(handles, s[1..], e);
    }
  }

  lemma {:induction false} ChargesDrop(handles: map<Id, Handle>, s: seq<Id>, e: Id)
    requires NoRepeats(s)
    ensures Charges(handles, Dropped(s, e)) + (if e in s then ChargeOf(handles, e) else 0) == Charges(handles, s)
  {
    if s != [] {
      assert forall i | 0 <= i < |s[1..]| :: s[1..][i] == s[i + 1];
      ChargesDrop(handles, s[1..], e);
      assert s == [s[0]] + s[1..];
      if s[0] == e {
        assert forall i | 0 <= i < |s[1..]| :: s[1..][i] != e;
        DroppedNever(s[1..], e);
        assert Dropped(s, e) == s[1..];
      } else {
        assert ([s[0]] + Dropped(s[1..], e))[1..] == Dropped(s[1..], e);
      }
    }
  }

  // ---------------------------------------------------------------- the invariant, over values

  /** What is in the cache is on one list or the other: with no client on the LRU list, with some on the in-use list. */
  ghost predicate ListsFit(handles: map<Id, Handle>, lru: seq<Id>, inUse: seq<Id>) {
    && (forall id | id in lru :: id in handles && handles[id].inCache && handles[id].refs == 1)
    && (forall id | id in inUse :: id in handles && handles[id].inCache && handles[id].refs >= 2)
    && (forall id | id in handles && handles[id].inCache :: id in lru || id in inUse)
  }

  /** Every handle counts its clients and the cache; one of them may be about to give up a reference. */
  ghost predicate RefsFit(handles: map<Id, Handle>, clients: multiset<Id>, owing: Id) {
    && (forall id | id in handles ::
          && handles[id].refs > 0
          && handles[id].refs == clients[id] + (if handles[id].inCache then 1 else 0) + (if id == owing then 1 else 0))
    && (forall id | id in clients :: id in handles)
  }

  /** Every handle there ever was is live or has had its deleter run, once. */
  ghost predicate DeletersFit(handles: map<Id, Handle>, deleted: seq<Id>, nextId: Id) {
    && nextId >= 2
    && NoRepeats(deleted)
    && (forall id | id in deleted :: id !in handles)
    && (forall id :: 2 <= id < nextId <==> id in handles || id in deleted)
  }

  /** The handle that owes no reference: no handle has this identity. */
  const NOBODY: Id := 0

  /** Everything the invariant speaks of. */
  datatype View = View(handles: map<Id, Handle>, lru: seq<Id>, inUse: seq<Id>, nodes: set<Node>, usage: nat,
                             clients: multiset<Id>, deleted: seq<Id>, nextId: Id)

  /** gone is the handle that is no longer in the table but not yet out of the cache. */
  ghost predicate Fits(v: View, owing: Id, gone: Id) {
    && NoRepeats(v.lru) && NoRepeats(v.inUse) && (forall id | id in v.lru :: id !in v.inUse)
    && ListsFit(v.handles, v.lru, v.inUse)
    && RefsFit(v.handles, v.clients, owing)
    && DeletersFit(v.handles, v.deleted, v.nextId)
    && v.nodes == Nodes(v.handles, gone)
    && v.usage == Charges(v.handles, v.lru) + Charges(v.handles, v.inUse)
  }

  /** What the table has to hold. */
  ghost function Nodes(handles: map<Id, Handle>, gone: Id): set<Node> {
    set n | n in CachedNodes(handles) && n.id != gone
  }

  /** Changing only a reference count keeps the nodes. */
  lemma RefsChange(handles: map<Id, Handle>, e: Id, refs: nat, gone: Id)
    requires e in handles
    ensures Nodes(handles[e := handles[e].(refs := refs)], gone) == Nodes(handles, gone)
  {
    var after := handles[e := handles[e].(refs := refs)];
    forall n
      ensures n in CachedNodes(after) <==> n in CachedNodes(handles)
    {
      CachedNodesHold(after, n);
      CachedNodesHold(handles, n);
    }
  }

  lemma AppendDistinct(s: seq<Id>, e: Id)
    requires NoRepeats(s) && e !in s
    ensures NoRepeats(s + [e])
  {
  }

  lemma {:induction false} DropDistinct(s: seq<Id>, e: Id)
    requires NoRepeats(s)
    ensures NoRepeats(Dropped(s, e))
  {
    if s != [] {
      assert forall i | 0 <= i < |s[1..]| :: s[1..][i] == s[i + 1];
      assert forall i | 0 <= i < |s[1..]| :: s[1..][i] != s[0];
      DropDistinct(s[1..], e);
      DroppedHolds(s[1..], e);
      HeadDistinct(s[0], Dropped(s[1..], e));
      assert Dropped(s, e) == Dropped(s[1..], e) || Dropped(s, e) == [s[0]] + Dropped(s[1..], e);
    }
  }

  lemma HeadDistinct(x: Id, s: seq<Id>)
    requires NoRepeats(s) && x !in s
    ensures NoRepeats([x] + s)
  {
  }

  /** The view after Ref: an idle cached handle moves to the in-use list. */
  ghost function Reffed(v: View, e: Id): View
    requires e in v.handles
  {
    var h := v.handles[e];
    var moves := h.refs == 1 && h.inCache;
    v.(handles := v.handles[e := h.(refs := h.refs + 1)],
       lru := if moves then Dropped(v.lru, e) else v.lru,
       inUse := if moves then Dropped(v.inUse, e) + [e] else v.inUse,
       clients := v.clients + multiset{e})
  }

  lemma RefFits(v: View, e: Id)
    requires Fits(v, NOBODY, NOBODY) && e in v.handles
    ensures Fits(Reffed(v, e), NOBODY, NOBODY)
  {
    if v.handles[e].refs == 1 && v.handles[e].inCache {
      BusyFits(v, e);
    } else {
      CountUpFits(v, e);
    }
  }

  /** The first client of a cached handle: it leaves the LRU list, wherever it is there. */
  lemma BusyFits(v: View, e: Id)
    requires Fits(v, NOBODY, NOBODY) && e in v.handles && v.handles[e].inCache && v.handles[e].refs == 1
    ensures Fits(Reffed(v, e), NOBODY, NOBODY)
  {
    var w := Reffed(v, e);
    assert e in v.lru && e !in v.inUse && NOBODY !in v.handles;
    MoveFits(v.handles, v.lru, v.inUse, e);
    DroppedNever(v.inUse, e);
    CountFits(v, e, 2, w.lru, w.inUse);
    RefLists(v.handles, v.lru, v.inUse, e, w.lru, w.inUse);
    RefRefs(v.handles, v.clients, e);
  }

  lemma CountUpFits(v: View, e: Id)
    requires Fits(v, NOBODY, NOBODY) && e in v.handles
    requires v.handles[e].inCache ==> v.handles[e].refs > 1
    ensures Fits(Reffed(v, e), NOBODY, NOBODY)
  {
    assert NOBODY !in v.handles;
    CountFits(v, e, v.handles[e].refs + 1, v.lru, v.inUse);
    RefLists(v.handles, v.lru, v.inUse, e, v.lru, v.inUse);
    RefRefs(v.handles, v.clients, e);
  }

  lemma RefLists(handles: map<Id, Handle>, lru: seq<Id>, inUse: seq<Id>, e: Id, lru': seq<Id>, inUse': seq<Id>)
    requires ListsFit(handles, lru, inUse) && e in handles && handles[e].refs > 0
    requires var moves := handles[e].refs == 1 && handles[e].inCache;
             && (forall x :: x in lru' <==> x in lru && !(moves && x == e))
             && (forall x :: x in inUse' <==> x in inUse || (moves && x == e))
    ensures ListsFit(handles[e := handles[e].(refs := handles[e].refs + 1)], lru', inUse')
  {
  }

  lemma RefRefs(handles: map<Id, Handle>, clients: multiset<Id>, e: Id)
    requires RefsFit(handles, clients, NOBODY) && e in handles && NOBODY !in handles
    ensures RefsFit(handles[e := handles[e].(refs := handles[e].refs + 1)], clients + multiset{e}, NOBODY)
  {
  }

  /** Only e's reference count has changed, and the lists still add up to the same charge. */
  lemma CountFits(v: View, e: Id, refs: nat, lru: seq<Id>, inUse: seq<Id>)
    requires e in v.handles && v.handles[e].refs > 0
    requires Charges(v.handles, lru) + Charges(v.handles, inUse)
               == Charges(v.handles, v.lru) + Charges(v.handles, v.inUse)
    requires DeletersFit(v.handles, v.deleted, v.nextId)
    ensures var after := v.handles[e := v.handles[e].(refs := refs)];
            && Nodes(after, NOBODY) == Nodes(v.handles, NOBODY)
            && Charges(after, lru) + Charges(after, inUse) == Charges(v.handles, v.lru) + Charges(v.handles, v.inUse)
            && DeletersFit(after, v.deleted, v.nextId)
  {
    var after := v.handles[e := v.handles[e].(refs := refs)];
    RefsChange(v.handles, e, refs, NOBODY);
    SameCharges(v.handles, after, lru);
    SameCharges(v.handles, after, inUse);
    DeletersStay(v.handles, v.deleted, v.nextId, e, after[e]);
  }

  /** Moving an entry from one list to the end of the other. */
  lemma MoveFits(handles: map<Id, Handle>, a: seq<Id>, b: seq<Id>, e: Id)
    requires NoRepeats(a) && NoRepeats(b) && e in a && e !in b
    ensures NoRepeats(Dropped(a, e)) && NoRepeats(b + [e])
    ensures forall x :: x in Dropped(a, e) <==> x in a && x != e
    ensures Charges(handles, Dropped(a, e)) + Charges(handles, b + [e]) == Charges(handles, a) + Charges(handles, b)
  {
    DropDistinct(a, e);
    AppendDistinct(b, e);
    DroppedHolds(a, e);
    ChargesDrop(handles, a, e);
    ChargesAppend(handles, b, e);
  }

  /** The view after Unref, by whichever owed the reference: freed, moved to the LRU list, or just counted down. */
  ghost function Unreffed(v: View, e: Id): View
    requires e in v.handles && v.handles[e].refs > 0
  {
    var h := v.handles[e];
    if h.refs == 1 then
      v.(handles := v.handles - {e}, deleted := v.deleted + [e])
    else if h.inCache && h.refs == 2 then
      v.(handles := v.handles[e := h.(refs := 1)], lru := Dropped(v.lru, e) + [e], inUse := Dropped(v.inUse, e))
    else
      v.(handles := v.handles[e := h.(refs := h.refs - 1)])
  }

  lemma UnrefFits(v: View, e: Id)
    requires Fits(v, e, NOBODY) && e in v.handles
    ensures Fits(Unreffed(v, e), NOBODY, NOBODY)
  {
    var h := v.handles[e];
    if h.refs == 1 {
      FreeFits(v, e);
    } else if h.inCache && h.refs == 2 {
      IdleFits(v, e);
    } else {
      CountDownFits(v, e);
    }
  }

  /** The last client gone: a cached handle goes to the LRU list, as its newest entry. */
  lemma IdleFits(v: View, e: Id)
    requires Fits(v, e, NOBODY) && e in v.handles && v.handles[e].inCache && v.handles[e].refs == 2
    ensures Fits(Unreffed(v, e), NOBODY, NOBODY)
  {
    var w := Unreffed(v, e);
    assert e in v.inUse && e !in v.lru && NOBODY !in v.handles;
    MoveFits(v.handles, v.inUse, v.lru, e);
    DroppedNever(v.lru, e);
    CountFits(v, e, 1, w.lru, w.inUse);
    UnrefLists(v.handles, v.lru, v.inUse, e, w.lru, w.inUse);
    UnrefRefs(v.handles, v.clients, e);
  }

  lemma CountDownFits(v: View, e: Id)
    requires Fits(v, e, NOBODY) && e in v.handles && v.handles[e].refs > 1
    requires v.handles[e].inCache ==> v.handles[e].refs > 2
    ensures Fits(Unreffed(v, e), NOBODY, NOBODY)
  {
    assert NOBODY !in v.handles;
    var h := v.handles[e].(refs := v.handles[e].refs - 1);
    assert Unreffed(v, e) == v.(handles := v.handles[e := h]);
    CountFits(v, e, h.refs, v.lru, v.inUse);
    UnrefLists(v.handles, v.lru, v.inUse, e, v.lru, v.inUse);
    UnrefRefs(v.handles, v.clients, e);
  }

  lemma UnrefLists(handles: map<Id, Handle>, lru: seq<Id>, inUse: seq<Id>, e: Id, lru': seq<Id>, inUse': seq<Id>)
    requires ListsFit(handles, lru, inUse) && e in handles && handles[e].refs > 1
    requires var moves := handles[e].refs == 2 && handles[e].inCache;
             && (forall x :: x in lru' <==> x in lru || (moves && x == e))
             && (forall x :: x in inUse' <==> x in inUse && !(moves && x == e))
    ensures ListsFit(handles[e := handles[e].(refs := handles[e].refs - 1)], lru', inUse')
  {
  }

  lemma UnrefRefs(handles: map<Id, Handle>, clients: multiset<Id>, e: Id)
    requires RefsFit(handles, clients, e) && e in handles && handles[e].refs > 1 && NOBODY !in handles
    ensures RefsFit(handles[e := handles[e].(refs := handles[e].refs - 1)], clients, NOBODY)
  {
  }

  /** The last reference gone: the handle is in no list and not in the table, and its deleter runs. */
  lemma FreeFits(v: View, e: Id)
    requires Fits(v, e, NOBODY) && e in v.handles && v.handles[e].refs == 1
    ensures Fits(v.(handles := v.handles - {e}, deleted := v.deleted + [e]), NOBODY, NOBODY)
  {
    var left := v.handles - {e};
    assert !v.handles[e].inCache && e !in v.lru && e !in v.inUse && NOBODY !in v.handles;
    SameCharges(v.handles, left, v.lru);
    SameCharges(v.handles, left, v.inUse);
    AppendDistinct(v.deleted, e);
    forall n
      ensures n in Nodes(left, NOBODY) <==> n in Nodes(v.handles, NOBODY)
    {
      CachedNodesHold(left, n);
      CachedNodesHold(v.handles, n);
    }
    FreeParts(v.handles, v.lru, v.inUse, v.clients, v.deleted, v.nextId, e);
  }

  lemma FreeParts(handles: map<Id, Handle>, lru: seq<Id>, inUse: seq<Id>, clients: multiset<Id>, deleted: seq<Id>,
                  nextId: Id, e: Id)
    requires ListsFit(handles, lru, inUse) && RefsFit(handles, clients, e) && DeletersFit(handles, deleted, nextId)
    requires e in handles && handles[e].refs == 1 && e !in lru && e !in inUse && NOBODY !in handles
    ensures ListsFit(handles - {e}, lru, inUse) && RefsFit(handles - {e}, clients, NOBODY)
    ensures DeletersFit(handles - {e}, deleted + [e], nextId)
  {
    AppendDistinct(deleted, e);
  }

  /** The view after FinishErase has taken e off its list and out of the cache, and before it gives up the reference. */
  ghost function Uncached(v: View, e: Id): View
    requires e in v.handles && v.usage >= v.handles[e].charge
  {
    v.(handles := v.handles[e := v.handles[e].(inCache := false)],
       lru := Dropped(v.lru, e), inUse := Dropped(v.inUse, e), usage := v.usage - v.handles[e].charge)
  }

  lemma DroppedBoth(v: View, e: Id)
    requires NoRepeats(v.lru) && NoRepeats(v.inUse) && (forall id | id in v.lru :: id !in v.inUse)
    requires e in v.lru || e in v.inUse
    ensures NoRepeats(Dropped(v.lru, e)) && NoRepeats(Dropped(v.inUse, e))
    ensures forall x :: x in Dropped(v.lru, e) <==> x in v.lru && x != e
    ensures forall x :: x in Dropped(v.inUse, e) <==> x in v.inUse && x != e
    ensures Charges(v.handles, Dropped(v.lru, e)) + Charges(v.handles, Dropped(v.inUse, e)) + ChargeOf(v.handles, e)
         == Charges(v.handles, v.lru) + Charges(v.handles, v.inUse)
  {
    DropDistinct(v.lru, e);
    DropDistinct(v.inUse, e);
    DroppedHolds(v.lru, e);
    DroppedHolds(v.inUse, e);
    ChargesDrop(v.handles, v.lru, e);
    ChargesDrop(v.handles, v.inUse, e);
  }

  /** The nodes the table has to hold when e is in it or not, before and after a change to e. */
  lemma NodesBut(handles: map<Id, Handle>, e: Id, h: Handle, gone: Id, gone': Id)
    requires NOBODY !in handles && e != NOBODY
    requires (gone == NOBODY && (e !in handles || !handles[e].inCache)) || gone == e
    requires (gone' == NOBODY && !h.inCache) || gone' == e
    ensures Nodes(handles[e := h], gone') == Nodes(handles, gone)
  {
    var after := handles[e := h];
    forall n
      ensures n in CachedNodes(after) && n.id != gone' <==> n in CachedNodes(handles) && n.id != gone
    {
      CachedNodesHold(handles, n);
      CachedNodesHold(after, n);
    }
  }

  lemma UncacheFits(v: View, e: Id)
    requires Fits(v, NOBODY, e) && e in v.handles && v.handles[e].inCache
    ensures v.usage >= v.handles[e].charge
    ensures Fits(Uncached(v, e), e, NOBODY)
  {
    DroppedBoth(v, e);
    var w := Uncached(v, e);
    assert NOBODY !in v.handles;
    NodesBut(v.handles, e, w.handles[e], e, NOBODY);
    UncacheLists(v.handles, v.lru, v.inUse, e, w.handles[e], w.lru, w.inUse);
    UncacheRefs(v.handles, v.clients, e);
    DeletersStay(v.handles, v.deleted, v.nextId, e, w.handles[e]);
  }

  lemma UncacheRefs(handles: map<Id, Handle>, clients: multiset<Id>, e: Id)
    requires RefsFit(handles, clients, NOBODY) && e in handles && handles[e].inCache && NOBODY !in handles
    ensures RefsFit(handles[e := handles[e].(inCache := false)], clients, e)
  {
  }

  lemma DeletersStay(handles: map<Id, Handle>, deleted: seq<Id>, nextId: Id, e: Id, h: Handle)
    requires DeletersFit(handles, deleted, nextId) && e in handles
    ensures DeletersFit(handles[e := h], deleted, nextId)
  {
  }

  lemma UncacheLists(handles: map<Id, Handle>, lru: seq<Id>, inUse: seq<Id>, e: Id, h: Handle, lru': seq<Id>,
                     inUse': seq<Id>)
    requires ListsFit(handles, lru, inUse) && e in handles && !h.inCache
    requires forall x :: x in lru' <==> x in lru && x != e
    requires forall x :: x in inUse' <==> x in inUse && x != e
    ensures ListsFit(handles[e := h], lru', inUse')
    ensures Charges(handles[e := h], lru') == Charges(handles, lru')
              && Charges(handles[e := h], inUse') == Charges(handles, inUse')
  {
    SameCharges(handles, handles[e := h], lru');
    SameCharges(handles, handles[e := h], inUse');
  }

  /** The view after Insert has linked in a new handle; the table is not told yet. */
  ghost function Added(v: View, e: Id, h: Handle): View {
    v.(handles := v.handles[e := h], inUse := v.inUse + [e], usage := v.usage + h.charge,
       clients := v.clients + multiset{e}, nextId := e + 1)
  }

  lemma AddFits(v: View, h: Handle)
    requires Fits(v, NOBODY, NOBODY) && h.inCache && h.refs == 2
    ensures Fits(Added(v, v.nextId, h), NOBODY, v.nextId)
  {
    var e := v.nextId;
    assert e !in v.handles && e !in v.lru && e !in v.inUse && NOBODY !in v.handles;
    AppendDistinct(v.inUse, e);
    NewCharges(v.handles, e, h, v.lru, v.inUse);
    ChargesAppend(v.handles[e := h], v.inUse, e);
    NodesBut(v.handles, e, h, NOBODY, e);
    AddLists(v.handles, v.lru, v.inUse, e, h);
    AddRefs(v.handles, v.clients, e, h);
    AddDeleters(v.handles, v.deleted, e, h);
  }

  lemma AddLists(handles: map<Id, Handle>, lru: seq<Id>, inUse: seq<Id>, e: Id, h: Handle)
    requires ListsFit(handles, lru, inUse) && e !in handles
    ensures h.inCache && h.refs == 2 ==> ListsFit(handles[e := h], lru, inUse + [e])
    ensures !h.inCache ==> ListsFit(handles[e := h], lru, inUse)
  {
  }

  lemma AddRefs(handles: map<Id, Handle>, clients: multiset<Id>, e: Id, h: Handle)
    requires RefsFit(handles, clients, NOBODY) && e !in handles && e != NOBODY && h.refs == if h.inCache then 2 else 1
    ensures RefsFit(handles[e := h], clients + multiset{e}, NOBODY)
  {
    assert e !in clients;
  }

  lemma AddDeleters(handles: map<Id, Handle>, deleted: seq<Id>, e: Id, h: Handle)
    requires DeletersFit(handles, deleted, e)
    ensures DeletersFit(handles[e := h], deleted, e + 1)
  {
  }

  lemma NewCharges(handles: map<Id, Handle>, e: Id, h: Handle, lru: seq<Id>, inUse: seq<Id>)
    requires e !in lru && e !in inUse
    ensures Charges(handles[e := h], lru) == Charges(handles, lru)
              && Charges(handles[e := h], inUse) == Charges(handles, inUse)
  {
    SameCharges(handles, handles[e := h], lru);
    SameCharges(handles, handles[e := h], inUse);
  }

  /** The view after Insert has made a handle that is not cached: only its client holds it. */
  ghost function Uncounted(v: View, e: Id, h: Handle): View {
    v.(handles := v.handles[e := h], clients := v.clients + multiset{e}, nextId := e + 1)
  }

  lemma UncachedHandleFits(v: View, h: Handle)
    requires Fits(v, NOBODY, NOBODY) && !h.inCache && h.refs == 1
    ensures Fits(Uncounted(v, v.nextId, h), NOBODY, NOBODY)
  {
    var e := v.nextId;
    assert e !in v.handles && e !in v.lru && e !in v.inUse && NOBODY !in v.handles;
    NewCharges(v.handles, e, h, v.lru, v.inUse);
    NodesBut(v.handles, e, h, NOBODY, NOBODY);
    AddLists(v.handles, v.lru, v.inUse, e, h);
    AddRefs(v.handles, v.clients, e, h);
    AddDeleters(v.handles, v.deleted, e, h);
  }

  lemma CachedIsListed(v: View, owing: Id, gone: Id, e: Id)
    requires Fits(v, owing, gone) && e in v.handles
    ensures e >= 2 && v.handles[e].refs > 0
    ensures v.handles[e].inCache ==> e in v.lru || e in v.inUse
  {
  }

  /** The table takes a new handle in, in place of the one with its key. */
  lemma TableInsertFits(v: View, e: Id, replaced: Option<Node>)
    requires Fits(v, NOBODY, e) && e in v.handles && v.handles[e].inCache
    requires replaced.Some? ==> replaced.value in v.nodes
    ensures var gone := if replaced.Some? then replaced.value.id else NOBODY;
            var rest := if replaced.Some? then v.nodes - {replaced.value} else v.nodes;
            && (replaced.Some? ==> gone != e && gone in v.handles && v.handles[gone].inCache)
            && rest + {NodeOf(e, v.handles[e])} == Nodes(v.handles, gone)
  {
    var gone := if replaced.Some? then replaced.value.id else NOBODY;
    var rest := if replaced.Some? then v.nodes - {replaced.value} else v.nodes;
    if replaced.Some? {
      CachedNodesHold(v.handles, replaced.value);
    }
    assert NOBODY !in v.handles;
    forall n
      ensures n in rest + {NodeOf(e, v.handles[e])} <==> n in Nodes(v.handles, gone)
    {
      CachedNodesHold(v.handles, n);
    }
  }

  /** The table lets go of a cached handle. */
  lemma TableRemoveFits(v: View, n: Node)
    requires Fits(v, NOBODY, NOBODY) && n in v.nodes
    ensures n.id in v.handles && v.handles[n.id].inCache && n == NodeOf(n.id, v.handles[n.id])
    ensures v.nodes - {n} == Nodes(v.handles, n.id)
  {
    CachedNodesHold(v.handles, n);
    forall m
      ensures m in v.nodes - {n} <==> m in Nodes(v.handles, n.id)
    {
      CachedNodesHold(v.handles, m);
    }
  }

  /** The view after the table has let go of e: what FinishErase does. */
  ghost function Erased(v: View, e: Id): View
    requires e in v.handles && v.usage >= v.handles[e].charge && v.handles[e].refs > 0
  {
    Unreffed(Uncached(v, e), e)
  }

  ghost predicate HasKey(handles: map<Id, Handle>, id: Id, key: Key, hash: nat) {
    id in handles && handles[id].inCache && handles[id].key == key && handles[id].hash == hash
  }

  /**
   From v to w, the cache has let go of id: out of the table, off its list, not charged; freed unless a client has it.
   */
  ghost predicate WasErased(v: View, w: View, id: Id) {
    && id in v.handles && v.usage >= v.handles[id].charge && v.handles[id].refs > 0
    && w == Erased(v.(nodes := v.nodes - {NodeOf(id, v.handles[id])}), id)
  }

  lemma NoNodeNoHandle(v: View, key: Key, hash: nat)
    requires Fits(v, NOBODY, NOBODY)
    requires forall n | n in v.nodes :: n.key != key || n.hash != hash
    ensures forall id | id in v.handles :: !HasKey(v.handles, id, key, hash)
  {
    assert NOBODY !in v.handles;
    forall id | id in v.handles
      ensures !HasKey(v.handles, id, key, hash)
    {
      CachedNodesHold(v.handles, NodeOf(id, v.handles[id]));
    }
  }

  /** The cache holds at most one handle of a key. */
  lemma OneHandlePerKey(v: View, n: Node, key: Key, hash: nat)
    requires Fits(v, NOBODY, NOBODY) && UniqueKeys(v.nodes) && n in v.nodes && n.key == key && n.hash == hash
    ensures forall id | id in v.handles :: HasKey(v.handles, id, key, hash) <==> id == n.id
  {
    assert NOBODY !in v.handles;
    CachedNodesHold(v.handles, n);
    forall id | id in v.handles
      ensures HasKey(v.handles, id, key, hash) <==> id == n.id
    {
      CachedNodesHold(v.handles, NodeOf(id, v.handles[id]));
    }
  }

  lemma ReleaseFits(v: View, e: Id)
    requires Fits(v, NOBODY, NOBODY) && e in v.clients
    ensures e in v.handles && v.handles[e].refs > 0
    ensures Fits(v.(clients := v.clients - multiset{e}), e, NOBODY)
  {
    ReleaseRefs(v.handles, v.clients, e);
  }

  lemma ReleaseRefs(handles: map<Id, Handle>, clients: multiset<Id>, e: Id)
    requires RefsFit(handles, clients, NOBODY) && e in clients && NOBODY !in handles
    ensures RefsFit(handles, clients - multiset{e}, e)
  {
  }

  /** The oldest idle entry is in the table, held by nothing but the cache. */
  lemma OldestIsNode(v: View, e: Id)
    requires Fits(v, NOBODY, NOBODY) && v.lru != [] && e == v.lru[0]
    ensures e in v.handles && v.handles[e].refs == 1 && HasKey(v.handles, e, v.handles[e].key, v.handles[e].hash)
  {
    assert e in v.lru;
  }

  /** From v to w, the first k entries of the LRU list are gone and freed, and nothing else has changed. */
  ghost predicate Evicted(v: View, w: View, k: nat) {
    && k <= |v.lru|
    && w.lru == v.lru[k..] && w.inUse == v.inUse && w.clients == v.clients && w.nextId == v.nextId
    && w.deleted == v.deleted + v.lru[..k]
    && (forall id :: id in w.handles <==> id in v.handles && id !in v.lru[..k])
    && (forall id | id in w.handles :: w.handles[id] == v.handles[id])
  }

  lemma EvictedNone(v: View)
    ensures Evicted(v, v, 0)
  {
  }

  /** Erasing the first entry of an LRU list that holds no other entry twice. */
  lemma ErasedOldest(v: View, w: View, e: Id)
    requires NoRepeats(v.lru) && (forall id | id in v.lru :: id !in v.inUse)
    requires v.lru != [] && e == v.lru[0] && WasErased(v, w, e) && v.handles[e].refs == 1
    ensures w.lru == v.lru[1..] && w.inUse == v.inUse && w.clients == v.clients && w.nextId == v.nextId
    ensures w.deleted == v.deleted + [e] && w.handles == v.handles - {e}
    ensures w.usage == v.usage - v.handles[e].charge
  {
    assert forall i | 0 <= i < |v.lru[1..]| :: v.lru[1..][i] == v.lru[i + 1];
    DroppedOnce(v.lru, e, 0);
    assert Without(v.lru, 0) == v.lru[1..];
    assert e in v.lru;
    DroppedNever(v.inUse, e);
    assert v.handles[e := v.handles[e].(inCache := false)] - {e} == v.handles - {e};
  }

  lemma EvictedOneMore(v: View, mid: View, w: View, k: nat)
    requires Evicted(v, mid, k) && mid.lru != [] && Evicted(mid, w, 1)
    ensures Evicted(v, w, k + 1)
    ensures mid.lru[0] in mid.handles ==> ChargeOf(v.handles, v.lru[k]) == mid.handles[mid.lru[0]].charge
  {
    assert v.lru[..k + 1] == v.lru[..k] + [mid.lru[0]];
    assert v.lru[k + 1..] == v.lru[k..][1..];
    assert mid.lru[..1] == [mid.lru[0]];
  }

  lemma EvictedFirst(v: View, w: View, e: Id)
    requires Fits(v, NOBODY, NOBODY) && v.lru != [] && e == v.lru[0]
    requires WasErased(v, w, e) && v.handles[e].refs == 1
    ensures Evicted(v, w, 1) && w.usage + v.handles[e].charge == v.usage
  {
    ErasedOldest(v, w, e);
    assert v.lru[..1] == [e];
  }

  /** From v to w, the table has learnt of e, and the cache has erased the handle that had e's key, if there was one. */
  ghost predicate Entered(v: View, w: View, e: Id) {
    && e in v.handles
    && var h, u := v.handles[e], v.(nodes := v.nodes + {NodeOf(e, v.handles[e])});
    && (forall id {:trigger HasKey(v.handles, id, h.key, h.hash)} |
          id in v.handles && id != e && HasKey(v.handles, id, h.key, h.hash) :: WasErased(u, w, id))
    && ((forall id {:trigger HasKey(v.handles, id, h.key, h.hash)} |
           id in v.handles && id != e :: !HasKey(v.handles, id, h.key, h.hash)) ==> w == u)
  }

  lemma NextIsNew(v: View)
    requires Fits(v, NOBODY, NOBODY)
    ensures v.nextId >= 2 && v.nextId !in v.handles && v.nextId !in v.lru && v.nextId !in v.inUse
  {
  }

  lemma NotInTable(v: View, e: Id)
    requires Fits(v, NOBODY, e) && e in v.handles
    ensures NodeOf(e, v.handles[e]) !in v.nodes
  {
  }

  /** n is the node of the one other handle that has e's key. */
  ghost predicate IsReplaced(v: View, e: Id, n: Node) {
    && e in v.handles && n.id != e && n.id in v.handles && v.handles[n.id].inCache && n == NodeOf(n.id, v.handles[n.id])
    && forall id | id in v.handles && id != e ::
         HasKey(v.handles, id, v.handles[e].key, v.handles[e].hash) <==> id == n.id
  }

  lemma ReplacedHasKey(v: View, e: Id, n: Node)
    requires Fits(v, NOBODY, e) && UniqueKeys(v.nodes) && e in v.handles && v.handles[e].inCache
    requires n in v.nodes && n.key == v.handles[e].key && n.hash == v.handles[e].hash
    ensures IsReplaced(v, e, n)
  {
    CachedNodesHold(v.handles, n);
    forall id | id in v.handles && id != e
      ensures HasKey(v.handles, id, n.key, n.hash) <==> id == n.id
    {
      CachedNodesHold(v.handles, NodeOf(id, v.handles[id]));
    }
  }

  lemma EnteredReplacing(v: View, w: View, e: Id, m: Node)
    requires IsReplaced(v, e, m) && v.usage >= v.handles[m.id].charge && v.handles[m.id].refs > 0
    requires w == Erased(v.(nodes := v.nodes - {m} + {NodeOf(e, v.handles[e])}), m.id)
    ensures Entered(v, w, e)
  {
    var n := NodeOf(e, v.handles[e]);
    assert v.nodes - {m} + {n} == v.nodes + {n} - {m};
    assert WasErased(v.(nodes := v.nodes + {n}), w, m.id);
    assert HasKey(v.handles, m.id, n.key, n.hash);
  }

  lemma EnteredAlone(v: View, w: View, e: Id)
    requires e in v.handles && w == v.(nodes := v.nodes + {NodeOf(e, v.handles[e])})
    requires forall id | id in v.handles && id != e :: !HasKey(v.handles, id, v.handles[e].key, v.handles[e].hash)
    ensures Entered(v, w, e)
  {
  }

  lemma NothingReplaced(v: View, e: Id)
    requires Fits(v, NOBODY, e) && e in v.handles && v.handles[e].inCache
    requires forall n | n in v.nodes :: n.key != v.handles[e].key || n.hash != v.handles[e].hash
    ensures forall id | id in v.handles && id != e :: !HasKey(v.handles, id, v.handles[e].key, v.handles[e].hash)
  {
    forall id | id in v.handles && id != e
      ensures !HasKey(v.handles, id, v.handles[e].key, v.handles[e].hash)
    {
      CachedNodesHold(v.handles, NodeOf(id, v.handles[id]));
    }
  }

  /** What the invariant means for deleters: a handle has had its deleter run just when nobody refers to it any more. */
  lemma DeletedWhenUnreferenced(v: View, id: Id)
    requires Fits(v, NOBODY, NOBODY) && 2 <= id < v.nextId
    ensures id in v.deleted <==> v.clients[id] == 0 && !(id in v.handles && v.handles[id].inCache)
    ensures forall i, j | 0 <= i < |v.deleted| && 0 <= j < |v.deleted| && v.deleted[i] == v.deleted[j] :: i == j
  {
    assert NOBODY !in v.handles;
  }

  class LRUCache {
    const capacity: nat
    const lists: Lists
    const table: HandleTable
    var usage: nat
    var handles: map<Id, Handle>
    var nextId: Id
    ghost var clients: multiset<Id>
    ghost var deleted: seq<Id>

    ghost function Shown(): View
      reads this, lists, table
    {
      View(handles, lists.lru, lists.inUse, table.nodes, usage, clients, deleted, nextId)
    }

    ghost predicate Linked()
      reads this, lists, table
    {
      lists.Valid() && lists.lruHead == 0 && lists.inUseHead == 1 && table.Valid()
    }

    ghost predicate Valid()
      reads this, lists, table
    {
      Linked() && Fits(Shown(), NOBODY, NOBODY)
    }

    constructor (capacity: nat)
      ensures Valid() && this.capacity == capacity && fresh(lists) && fresh(table)
      ensures usage == 0 && lists.lru == [] && lists.inUse == [] && clients == multiset{} && deleted == []
    {
      this.capacity := capacity;
      lists := new Lists();
      table := new HandleTable();
      usage, handles, nextId, clients, deleted := 0, map[], 2, multiset{}, [];
    }

    /** From whichever list it is on to the end of the in-use list. */
    method MoveToInUse(e: Id)
      requires Linked() && e >= 2 && (e in lists.lru || e in lists.inUse)
      modifies lists
      ensures Linked() && lists.lru == Dropped(old(lists.lru), e) && lists.inUse == Dropped(old(lists.inUse), e) + [e]
    {
      lists.Remove(e);
      DroppedHolds(old(lists.lru), e);
      DroppedHolds(old(lists.inUse), e);
      lists.AppendToInUse(e);
    }

    /** From whichever list it is on to the end of the LRU list. */
    method MoveToLru(e: Id)
      requires Linked() && e >= 2 && (e in lists.lru || e in lists.inUse)
      modifies lists
      ensures Linked() && lists.lru == Dropped(old(lists.lru), e) + [e] && lists.inUse == Dropped(old(lists.inUse), e)
    {
      lists.Remove(e);
      DroppedHolds(old(lists.lru), e);
      DroppedHolds(old(lists.inUse), e);
      lists.AppendToLru(e);
    }

    /** One more reference, counted and the lists kept; the client's name goes down. */
    method CountUp(e: Id)
      requires Linked() && e in handles && e >= 2
      requires handles[e].inCache ==> e in lists.lru || e in lists.inUse
      modifies this, lists
      ensures Linked() && Shown() == old(Reffed(Shown(), e))
    {
      var h := handles[e];
      if h.refs == 1 && h.inCache {
        MoveToInUse(e);
      }
      handles := handles[e := h.(refs := h.refs + 1)];
      clients := clients + multiset{e};
    }

    method Ref(e: Id)
      requires Valid() && e in handles
      modifies this, lists
      ensures Valid() && Shown() == old(Reffed(Shown(), e))
    {
      RefFits(Shown(), e);
      CachedIsListed(Shown(), NOBODY, NOBODY, e);
      CountUp(e);
    }

    /** One reference less; without any, the deleter runs. */
    method CountDown(e: Id)
      requires Linked() && e in handles && e >= 2 && handles[e].refs > 0
      requires handles[e].inCache ==> e in lists.lru || e in lists.inUse
      modifies this, lists
      ensures Linked() && Shown() == old(Unreffed(Shown(), e))
    {
      var h := handles[e].(refs := handles[e].refs - 1);
      handles := handles[e := h];
      if h.refs == 0 {
        deleted := deleted + [e];
        handles := handles - {e};
        assert handles == old(handles) - {e};
      } else if h.inCache && h.refs == 1 {
        MoveToLru(e);
      }
    }

    method Unref(e: Id)
      requires Linked() && Fits(Shown(), e, NOBODY) && e in handles
      modifies this, lists
      ensures Valid() && Shown() == old(Unreffed(Shown(), e))
    {
      UnrefFits(Shown(), e);
      CachedIsListed(Shown(), e, NOBODY, e);
      CountDown(e);
    }

    /** Off its list and out of the cache; the cache's reference is still to be given up. */
    method TakeOut(e: Id)
      requires Linked() && e in handles && (e in lists.lru || e in lists.inUse) && usage >= handles[e].charge
      modifies this, lists
      ensures Linked() && Shown() == old(Uncached(Shown(), e))
    {
      lists.Remove(e);
      handles := handles[e := handles[e].(inCache := false)];
      usage := usage - handles[e].charge;
    }

    /** The rest of removing a handle that the table has let go of. */
    method FinishErase(e: Id)
      requires Linked() && Fits(Shown(), NOBODY, e) && e in handles && handles[e].inCache
      modifies this, lists
      ensures old(usage >= handles[e].charge && handles[e].refs > 0)
      ensures Valid() && Shown() == old(Erased(Shown(), e))
    {
      UncacheFits(Shown(), e);
      CachedIsListed(Shown(), NOBODY, e, e);
      TakeOut(e);
      Unref(e);
    }

    method Lookup(key: Key, hash: nat) returns (r: Option<Id>)
      requires Valid()
      modifies this, lists
      ensures Valid()
      ensures r.Some? ==> old(HasKey(handles, r.value, key, hash)) && Shown() == old(Reffed(Shown(), r.value))
      ensures r.None? ==> Shown() == old(Shown()) && forall id | id in handles :: !HasKey(handles, id, key, hash)
    {
      var n := table.Lookup(key, hash);
      if n.Some? {
        r := Some(n.value.id);
        TableRemoveFits(Shown(), n.value);
        Ref(n.value.id);
      } else {
        r := None;
        NoNodeNoHandle(Shown(), key, hash);
      }
    }

    /** A client gives back a handle it got from Insert or Lookup. */
    method Release(e: Id)
      requires Valid() && e in clients
      modifies this, lists
      ensures old(e in handles && handles[e].refs > 0)
      ensures Valid() && Shown() == old(Unreffed(Shown().(clients := clients - multiset{e}), e))
    {
      ReleaseFits(Shown(), e);
      clients := clients - multiset{e};
      Unref(e);
    }

    method Erase(key: Key, hash: nat)
      requires Valid()
      modifies this, lists, table
      ensures Valid()
      ensures forall id | id in old(handles) && HasKey(old(handles), id, key, hash) ::
                WasErased(old(Shown()), Shown(), id)
      ensures (forall id | id in old(handles) :: !HasKey(old(handles), id, key, hash)) ==> Shown() == old(Shown())
    {
      var n := table.Remove(key, hash);
      if n.Some? {
        OneHandlePerKey(old(Shown()), n.value, key, hash);
        TableRemoveFits(old(Shown()), n.value);
        FinishErase(n.value.id);
      } else {
        NoNodeNoHandle(Shown(), key, hash);
      }
    }

    /** Erases the oldest entry of the LRU list, after k others; e is then the next one, if found. */
    method EraseOldest(first: Id, ghost v: View, ghost k: nat) returns (e: Id, found: bool)
      requires Valid() && Evicted(v, Shown(), k)
      requires lists.lru != [] && first == lists.lru[0]
      modifies this, lists, table
      ensures Valid() && Evicted(v, Shown(), k + 1) && k < |v.lru|
      ensures usage + ChargeOf(v.handles, v.lru[k]) == old(usage)
      ensures |lists.lru| < |old(lists.lru)|
      ensures (found <==> lists.lru != []) && (found ==> e == lists.lru[0])
    {
      OldestIsNode(Shown(), first);
      Erase(handles[first].key, handles[first].hash);
      EvictedFirst(old(Shown()), Shown(), first);
      EvictedOneMore(v, old(Shown()), Shown(), k);
      e, found := lists.Oldest();
    }

    /** The end of Insert: idle entries go, oldest first, until the rest fits. */
    method EvictWhileFull() returns (ghost evicted: nat)
      requires Valid()
      modifies this, lists, table
      ensures Valid() && (usage <= capacity || lists.lru == [])
      ensures Evicted(old(Shown()), Shown(), evicted)
      ensures evicted > 0 ==> usage + ChargeOf(old(handles), old(lists.lru)[evicted - 1]) > capacity
    {
      evicted := 0;
      ghost var v := Shown();
      EvictedNone(v);
      var e, found := lists.Oldest();
      while usage > capacity && found
        invariant Valid() && Evicted(v, Shown(), evicted)
        invariant (found <==> lists.lru != []) && (found ==> e == lists.lru[0])
        invariant evicted > 0 ==> usage + ChargeOf(v.handles, v.lru[evicted - 1]) > capacity
        decreases |lists.lru|
      {
        e, found := EraseOldest(e, v, evicted);
        evicted := evicted + 1;
      }
    }

    /** A new handle for the client, and for the cache if it is on: on the in-use list, its charge counted. */
    method AddHandle(h: Handle) returns (e: Id)
      requires Valid() && h.inCache && h.refs == 2
      modifies this, lists
      ensures Linked() && e == old(nextId) && Fits(Shown(), NOBODY, e) && Shown() == old(Added(Shown(), nextId, h))
    {
      AddFits(Shown(), h);
      NextIsNew(Shown());
      e := nextId;
      handles, nextId, clients := handles[e := h], e + 1, clients + multiset{e};
      lists.AppendToInUse(e);
      usage := usage + h.charge;
    }

    /** A handle for the client alone. */
    method AddUncached(h: Handle) returns (e: Id)
      requires Valid() && !h.inCache && h.refs == 1
      modifies this
      ensures Valid() && e == old(nextId) && Shown() == old(Uncounted(Shown(), nextId, h))
    {
      UncachedHandleFits(Shown(), h);
      e := nextId;
      handles := handles[e := h];
      clients, nextId := clients + multiset{e}, e + 1;
    }

    /** The table learns of the new handle. */
    method TakeIn(e: Id) returns (replaced: Option<Node>)
      requires Linked() && Fits(Shown(), NOBODY, e) && e in handles && handles[e].inCache
      modifies table
      ensures Linked()
      ensures var v, n := old(Shown()), NodeOf(e, handles[e]);
              if replaced.Some? then
                && n != replaced.value && IsReplaced(v, e, replaced.value)
                && Shown() == v.(nodes := v.nodes - {replaced.value} + {n})
                && Fits(Shown(), NOBODY, replaced.value.id)
              else
                && (forall id | id in v.handles && id != e :: !HasKey(v.handles, id, n.key, n.hash))
                && Shown() == v.(nodes := v.nodes + {n}) && Fits(Shown(), NOBODY, NOBODY)
    {
      ghost var v := Shown();
      NotInTable(v, e);
      replaced := table.Insert(NodeOf(e, handles[e]));
      TableInsertFits(v, e, replaced);
      if replaced.Some? {
        ReplacedHasKey(v, e, replaced.value);
      } else {
        NothingReplaced(v, e);
      }
    }

    /** The table learns of the new handle, and the one it replaces is erased. */
    method EnterTable(e: Id)
      requires Linked() && Fits(Shown(), NOBODY, e) && e in handles && handles[e].inCache
      modifies this, lists, table
      ensures Valid()
      ensures Entered(old(Shown()), Shown(), e)
    {
      ghost var v := Shown();
      var replaced := TakeIn(e);
      if replaced.Some? {
        FinishErase(replaced.value.id);
        EnteredReplacing(v, Shown(), e, replaced.value);
      } else {
        EnteredAlone(v, Shown(), e);
      }
    }

    method Insert(key: Key, hash: nat, value: Value, charge: nat) returns (e: Id, ghost mid: View, ghost evicted: nat)
      requires Valid()
      modifies this, lists, table
      ensures Valid() && e == old(nextId)
      ensures capacity == 0 ==> mid == old(Uncounted(Shown(), nextId, Handle(key, hash, value, charge, false, 1)))
      ensures capacity > 0 ==> Entered(old(Added(Shown(), nextId, Handle(key, hash, value, charge, true, 2))), mid, e)
      ensures Evicted(mid, Shown(), evicted)
      ensures usage <= capacity || lists.lru == []
      ensures evicted > 0 ==> usage + ChargeOf(mid.handles, mid.lru[evicted - 1]) > capacity
    {
      if capacity > 0 {
        e := AddHandle(Handle(key, hash, value, charge, true, 2));
        EnterTable(e);
      } else {
        e := AddUncached(Handle(key, hash, value, charge, false, 1));
      }
      mid := Shown();
      evicted := EvictWhileFull();
    }

    /** Every idle entry goes; what clients hold stays. */
    method Prune()
      requires Valid()
      modifies this, lists, table
      ensures Valid() && lists.lru == []
      ensures Evicted(old(Shown()), Shown(), |old(lists.lru)|)
    {
      ghost var v, evicted := Shown(), 0;
      EvictedNone(v);
      var e, found := lists.Oldest();
      while found
        invariant Valid() && Evicted(v, Shown(), evicted)
        invariant (found <==> lists.lru != []) && (found ==> e == lists.lru[0])
        decreases |lists.lru|
      {
        e, found := EraseOldest(e, v, evicted);
        evicted := evicted + 1;
      }
    }
  }
}
