/**
 What a read means, independently of how the engine lays entries out: the newest entry of the user key at or
 below the snapshot decides, and a deletion or no entry at all reads as "not found".
 */
module Reads {
  import opened Keys

  datatype Option<T> = None | Some(value: T)

  datatype Answer = NotFound | Found(value: Value)

  ghost predicate Qualifies(e: Entry, u: UserKey, s: nat) {
    e.key.user == u && e.key.sequence <= s
  }

  ghost predicate IsNewest(S: iset<Entry>, u: UserKey, s: nat, e: Entry) {
    && e in S
    && Qualifies(e, u, s)
    && forall x | x in S && Qualifies(x, u, s) :: x.key.sequence <= e.key.sequence
  }

  ghost predicate HasEntry(S: iset<Entry>, u: UserKey, s: nat) {
    exists e :: e in S && Qualifies(e, u, s)
  }

  /** No two entries of one user key carry the same sequence number. */
  ghost predicate UniqueSeqs(S: iset<Entry>) {
    forall a, b | a in S && b in S && a.key.user == b.key.user && a.key.sequence == b.key.sequence :: a == b
  }

  /** Per user key, everything in A is newer than everything in B. */
  ghost predicate NewerThan(A: iset<Entry>, B: iset<Entry>) {
    forall a, b | a in A && b in B && a.key.user == b.key.user :: a.key.sequence > b.key.sequence
  }

  function AnswerOf(e: Entry): Answer {
    if e.key.kind.TypeValue? then Found(e.value) else NotFound
  }

  ghost function Read(S: iset<Entry>, u: UserKey, s: nat): Answer {
    if exists e :: IsNewest(S, u, s, e) then
      var e :| IsNewest(S, u, s, e);
      AnswerOf(e)
    else
      NotFound
  }

  ghost function Elements(es: seq<Entry>): iset<Entry> {
    iset e | e in es
  }

  /** The read is decided by any entry that is newest: there is only one. */
  lemma ReadIs(S: iset<Entry>, u: UserKey, s: nat, e: Entry)
    requires UniqueSeqs(S) && IsNewest(S, u, s, e)
    ensures Read(S, u, s) == AnswerOf(e)
  {
    var x :| IsNewest(S, u, s, x) && Read(S, u, s) == AnswerOf(x);
    assert IsNewest(S, u, s, x) && x in S;
  }

  lemma ReadNothing(S: iset<Entry>, u: UserKey, s: nat)
    requires !HasEntry(S, u, s)
    ensures Read(S, u, s) == NotFound
  {
    if e :| IsNewest(S, u, s, e) {
      assert HasEntry(S, u, s);
    }
  }

  /**
   A newest entry exists whenever some entry qualifies, even in an infinite set: sequence numbers are bounded by s.
   */
  lemma {:induction false} NewestExists(S: iset<Entry>, u: UserKey, s: nat, e: Entry) returns (n: Entry)
    requires e in S && Qualifies(e, u, s)
    ensures IsNewest(S, u, s, n)
    decreases s - e.key.sequence
  {
    if x :| x in S && Qualifies(x, u, s) && x.key.sequence > e.key.sequence {
      n := NewestExists(S, u, s, x);
    } else {
      n := e;
    }
  }

  lemma UnionHasUniqueSeqs(A: iset<Entry>, B: iset<Entry>)
    requires UniqueSeqs(A) && UniqueSeqs(B) && NewerThan(A, B)
    ensures UniqueSeqs(A + B)
  {
  }

  /** Reading a newer layer stacked on an older one: the newer layer decides if it has any qualifying entry. */
  lemma LayeredRead(A: iset<Entry>, B: iset<Entry>, u: UserKey, s: nat)
    requires UniqueSeqs(A) && UniqueSeqs(B) && NewerThan(A, B)
    ensures UniqueSeqs(A + B)
    ensures Read(A + B, u, s) == if HasEntry(A, u, s) then Read(A, u, s) else Read(B, u, s)
  {
    if HasEntry(A, u, s) {
      var e :| e in A && Qualifies(e, u, s);
      var n := NewestExists(A, u, s, e);
      ReadIs(A, u, s, n);
      ReadIs(A + B, u, s, n);
    } else if HasEntry(B, u, s) {
      var e :| e in B && Qualifies(e, u, s);
      var n := NewestExists(B, u, s, e);
      assert forall x | x in A && Qualifies(x, u, s) :: false by { assert !HasEntry(A, u, s); }
      ReadIs(B, u, s, n);
      ReadIs(A + B, u, s, n);
    } else {
      ReadNothing(B, u, s);
      ReadNothing(A + B, u, s);
    }
  }

  /** One search of a layer settles the read, or hands it to the layers below. */
  lemma LayerDecides(A: iset<Entry>, B: iset<Entry>, u: UserKey, s: nat, hit: Option<Entry>)
    requires UniqueSeqs(A) && UniqueSeqs(B) && NewerThan(A, B)
    requires hit.Some? ==> IsNewest(A, u, s, hit.value)
    requires hit.None? ==> !HasEntry(A, u, s)
    ensures Read(A + B, u, s) == if hit.Some? then AnswerOf(hit.value) else Read(B, u, s)
  {
    LayeredRead(A, B, u, s);
    if hit.Some? {
      ReadIs(A, u, s, hit.value);
      assert HasEntry(A, u, s);
    }
  }

  lemma OrderedHasUniqueSeqs(es: seq<Entry>)
    requires Ordered(es)
    ensures UniqueSeqs(Elements(es))
  {
    forall a, b | a in es && b in es
      ensures a.key.user == b.key.user && a.key.sequence == b.key.sequence ==> a == b
    {
      var i :| 0 <= i < |es| && es[i] == a;
      var j :| 0 <= j < |es| && es[j] == b;
      assert i < j ==> Before(es[i].key, es[j].key);
      assert j < i ==> Before(es[j].key, es[i].key);
    }
  }
}
