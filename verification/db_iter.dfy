/**
 DBIter: a cursor over user keys, run forwards and backwards over an internal iterator that also holds overwritten,
 deleted and not-yet-visible entries.
 */
module DBIterator {
  import opened Keys
  import opened Reads
  import opened Versions
  import opened Cursors
  import opened Merger

  // ---------------------------------------------------------------- what the iterator shows

  predicate Visible(es: seq<Entry>, k: nat, s: nat)
    requires k < |es|
  {
    es[k].key.sequence <= s
  }

  /** The entry is the newest visible one of its user key, and it is a value. */
  ghost predicate Shown(es: seq<Entry>, k: nat, s: nat) {
    && k < |es| && Visible(es, k, s) && es[k].key.kind.TypeValue?
    && forall j | 0 <= j < k :: es[j].key.user == es[k].key.user ==> !Visible(es, j, s)
  }

  /** r is the first shown entry past from, if there is one. */
  ghost predicate FirstShownPast(es: seq<Entry>, s: nat, from: int, r: Position) {
    && (r.Some? ==> from < r.value && Shown(es, r.value, s))
    && forall k: nat | from < k < (if r.Some? then r.value else |es|) :: !Shown(es, k, s)
  }

  /** r is the last shown entry before bound, if there is one. */
  ghost predicate LastShownBefore(es: seq<Entry>, s: nat, bound: nat, r: Position) {
    && (r.Some? ==> r.value < bound && Shown(es, r.value, s))
    && forall k: nat | (if r.Some? then r.value + 1 else 0) <= k < bound :: !Shown(es, k, s)
  }

  // ---------------------------------------------------------------- scanning forward

  /**
   Before entry index is looked at. Nothing shown was passed since from; a visible entry that was passed can only
   share its user key with later entries that skip covers; and what skip covers is not shown, save the entry (at
   from) that the scan set out from.
   */
  ghost predicate Scanning(es: seq<Entry>, s: nat, from: int, index: nat, skipping: bool, skip: Option<UserKey>) {
    && (skipping ==> skip.Some?)
    && (forall k: nat | from < k < index && k < |es| :: !Shown(es, k, s))
    && (forall j: nat, k: nat | j < index <= k < |es| && Visible(es, j, s) && es[j].key.user == es[k].key.user
          :: skipping && es[k].key.user <= skip.value)
    && (skipping ==> forall k: nat | index <= k < |es| && es[k].key.user <= skip.value && from < k :: !Shown(es, k, s))
    && (index <= from ==> Leaving(es, s, from, index, skipping, skip))
  }

  /** The scan has not yet left the entry it set out from. */
  ghost predicate Leaving(es: seq<Entry>, s: nat, from: int, index: nat, skipping: bool, skip: Option<UserKey>)
    requires skipping ==> skip.Some?
  {
    && 0 <= from < |es| && Shown(es, from, s) && skipping && es[from].key.user <= skip.value
    && forall k: nat | index <= k < from :: !Visible(es, k, s)
  }

  lemma ScanPast(es: seq<Entry>, s: nat, from: int, index: nat, skipping: bool, skip: Option<UserKey>)
    requires Ordered(es) && index < |es| && Scanning(es, s, from, index, skipping, skip)
    requires !Visible(es, index, s) || (skipping && es[index].key.user <= skip.value)
    ensures Scanning(es, s, from, index + 1, skipping, skip)
  {
    assert forall k | index < k < |es| :: Before(es[index].key, es[k].key);
  }

  lemma ScanDeletion(es: seq<Entry>, s: nat, from: int, index: nat, skipping: bool, skip: Option<UserKey>)
    requires Ordered(es) && index < |es| && Scanning(es, s, from, index, skipping, skip)
    requires Visible(es, index, s) && es[index].key.kind.TypeDeletion?
    ensures Scanning(es, s, from, index + 1, true, Some(es[index].key.user))
  {
    forall j: nat, k: nat | j <= index < k < |es| && es[j].key.user == es[k].key.user
      ensures es[k].key.user <= es[index].key.user
    {
      assert j < index ==> Before(es[j].key, es[index].key);
      assert Before(es[index].key, es[k].key);
    }
    forall k: nat | index < k < |es| ensures es[k].key.user <= es[index].key.user ==> !Shown(es, k, s) {
      assert Before(es[index].key, es[k].key);
    }
  }

  lemma ScanShows(es: seq<Entry>, s: nat, from: int, index: nat, skipping: bool, skip: Option<UserKey>)
    requires Ordered(es) && index < |es| && Scanning(es, s, from, index, skipping, skip)
    requires Visible(es, index, s) && es[index].key.kind.TypeValue?
    requires !(skipping && es[index].key.user <= skip.value)
    ensures FirstShownPast(es, s, from, Some(index))
  {
    assert forall k | index < k < |es| :: Before(es[index].key, es[k].key);
  }

  lemma ScanEnds(es: seq<Entry>, s: nat, from: int, index: nat, skipping: bool, skip: Option<UserKey>)
    requires Scanning(es, s, from, index, skipping, skip) && index >= |es|
    ensures FirstShownPast(es, s, from, None)
  {
  }

  // ---------------------------------------------------------------- scanning backward

  /**
   Everything from index on, short of bound, has been looked at. If m is saved it is the first visible entry of what
   was looked at, a value; and nothing else there is shown.
   */
  ghost predicate Retreating(es: seq<Entry>, s: nat, bound: nat, index: nat, m: Option<nat>) {
    && bound <= |es|
    && (m.Some? ==> index <= m.value < bound && Visible(es, m.value, s) && es[m.value].key.kind.TypeValue?
                    && forall k: nat | index <= k < m.value :: !Visible(es, k, s))
    && forall k: nat | (if m.Some? then m.value + 1 else index) <= k < bound :: !Shown(es, k, s)
  }

  lemma RetreatPast(es: seq<Entry>, s: nat, bound: nat, index: nat, m: Option<nat>)
    requires 0 < index && Retreating(es, s, bound, index, m) && index <= bound && !Visible(es, index - 1, s)
    ensures Retreating(es, s, bound, index - 1, m)
  {
  }

  /** A visible entry of the saved user key (or of any, if none is saved) replaces what was saved. */
  lemma RetreatOnto(es: seq<Entry>, s: nat, bound: nat, index: nat, m: Option<nat>)
    requires Ordered(es) && 0 < index && Retreating(es, s, bound, index, m) && index <= bound
               && Visible(es, index - 1, s)
    requires m.Some? ==> es[index - 1].key.user >= es[m.value].key.user
    ensures Retreating(es, s, bound, index - 1, if es[index - 1].key.kind.TypeValue? then Some(index - 1) else None)
  {
    assert m.Some? ==> Before(es[index - 1].key, es[m.value].key);
  }

  /** Once an older user key turns up visible, or the front is reached, the saved entry is the one to show. */
  lemma RetreatDone(es: seq<Entry>, s: nat, bound: nat, index: nat, m: Option<nat>)
    requires Ordered(es) && Retreating(es, s, bound, index, m)
    requires index == 0 || (m.Some? && es[index - 1].key.user < es[m.value].key.user)
    ensures LastShownBefore(es, s, bound, m)
  {
    if m.Some? {
      assert 0 < index ==> forall j | 0 <= j < index - 1 :: Before(es[j].key, es[index - 1].key);
      assert forall j: nat | j < m.value && es[j].key.user == es[m.value].key.user :: !Visible(es, j, s);
    }
  }

  // ---------------------------------------------------------------- the sorted map that is shown

  /** The shown entries among the first n, as (user key, value) pairs. */
  ghost function View(es: seq<Entry>, n: nat, s: nat): seq<(UserKey, Value)>
    requires n <= |es|
  {
    if n == 0 then []
    else View(es, n - 1, s) + if Shown(es, n - 1, s) then [(es[n - 1].key.user, es[n - 1].value)] else []
  }

  lemma {:induction false} ViewPrefix(es: seq<Entry>, a: nat, b: nat, s: nat)
    requires a <= b <= |es|
    ensures View(es, a, s) <= View(es, b, s)
    ensures (forall k | a <= k < b :: !Shown(es, k, s)) ==> View(es, a, s) == View(es, b, s)
    decreases b
  {
    if a < b {
      ViewPrefix(es, a, b - 1, s);
    }
  }

  /** A shown entry stands at the place in the view that counts the shown entries before it. */
  lemma ShownInView(es: seq<Entry>, k: nat, s: nat)
    requires Shown(es, k, s)
    ensures View(es, k + 1, s) == View(es, k, s) + [(es[k].key.user, es[k].value)]
    ensures |View(es, k, s)| < |View(es, |es|, s)|
    ensures View(es, |es|, s)[|View(es, k, s)|] == (es[k].key.user, es[k].value)
  {
    ViewPrefix(es, k + 1, |es|, s);
  }

  ghost function PositionOf(es: seq<Entry>, s: nat, at: Position): Position
    requires at.Some? ==> at.value < |es|
  {
    if at.None? then None else Some(|View(es, at.value, s)|)
  }

  /** The first shown entry from a given place on is where the view continues. */
  lemma FirstPastPosition(es: seq<Entry>, s: nat, start: nat, at: Position)
    requires start <= |es| && FirstShownPast(es, s, start - 1, at)
    ensures PositionOf(es, s, at) == AtIndex(|View(es, |es|, s)|, |View(es, start, s)|)
  {
    if at.Some? {
      ViewPrefix(es, start, at.value, s);
      ShownInView(es, at.value, s);
    } else {
      ViewPrefix(es, start, |es|, s);
    }
  }

  lemma LastBeforePosition(es: seq<Entry>, s: nat, bound: nat, at: Position)
    requires bound <= |es| && LastShownBefore(es, s, bound, at)
    ensures PositionOf(es, s, at) == Last(|View(es, bound, s)|)
  {
    if at.Some? {
      ViewPrefix(es, at.value + 1, bound, s);
      ShownInView(es, at.value, s);
    } else {
      ViewPrefix(es, 0, bound, s);
    }
  }

  /** The first user key of the view that is >= target. */
  ghost function SeekView(view: seq<(UserKey, Value)>, target: UserKey): (r: nat)
    ensures r <= |view|
    ensures forall i | 0 <= i < r :: view[i].0 < target
    ensures r < |view| ==> view[r].0 >= target
  {
    if view == [] || view[0].0 >= target then 0 else 1 + SeekView(view[1..], target)
  }

  lemma {:induction false} ViewElements(es: seq<Entry>, n: nat, s: nat, i: nat) returns (k: nat)
    requires n <= |es| && i < |View(es, n, s)|
    ensures k < n && Shown(es, k, s) && View(es, n, s)[i] == (es[k].key.user, es[k].value) && |View(es, k, s)| == i
  {
    if i < |View(es, n - 1, s)| {
      k := ViewElements(es, n - 1, s, i);
    } else {
      k := n - 1;
    }
  }

  /** The view is strictly ascending in its user keys. */
  lemma ViewAscends(es: seq<Entry>, s: nat)
    requires Ordered(es)
    ensures var view := View(es, |es|, s); forall i, j | 0 <= i < j < |view| :: view[i].0 < view[j].0
  {
    var view := View(es, |es|, s);
    forall i, j | 0 <= i < j < |view| ensures view[i].0 < view[j].0 {
      var k := ViewElements(es, |es|, s, i);
      var l := ViewElements(es, |es|, s, j);
      if l <= k {
        ViewPrefix(es, l, k, s);
      }
      assert Before(es[k].key, es[l].key);
    }
  }

  /** The view is the sorted map of what a reader at the snapshot sees: exactly the keys that read as a value. */
  lemma ViewIsWhatReadersSee(es: seq<Entry>, s: nat, u: UserKey, value: Value)
    requires Ordered(es)
    ensures (u, value) in View(es, |es|, s) <==> Read(Elements(es), u, s) == Found(value)
  {
    OrderedHasUniqueSeqs(es);
    if (u, value) in View(es, |es|, s) {
      var i :| 0 <= i < |View(es, |es|, s)| && View(es, |es|, s)[i] == (u, value);
      var k := ViewElements(es, |es|, s, i);
      ShownIsNewest(es, k, s);
      ReadIs(Elements(es), u, s, es[k]);
    }
    if Read(Elements(es), u, s) == Found(value) {
      var e :| IsNewest(Elements(es), u, s, e) && Read(Elements(es), u, s) == AnswerOf(e);
      var k :| 0 <= k < |es| && es[k] == e;
      NewestIsShown(es, k, s);
      ShownInView(es, k, s);
    }
  }

  lemma ShownIsNewest(es: seq<Entry>, k: nat, s: nat)
    requires Ordered(es) && Shown(es, k, s)
    ensures IsNewest(Elements(es), es[k].key.user, s, es[k])
  {
    forall x | x in Elements(es) ensures Qualifies(x, es[k].key.user, s) ==> x.key.sequence <= es[k].key.sequence {
      var j :| 0 <= j < |es| && es[j] == x;
      assert k < j ==> Before(es[k].key, es[j].key);
    }
  }

  lemma NewestIsShown(es: seq<Entry>, k: nat, s: nat)
    requires Ordered(es) && k < |es| && IsNewest(Elements(es), es[k].key.user, s, es[k]) && es[k].key.kind.TypeValue?
    ensures Shown(es, k, s)
  {
    forall j | 0 <= j < k ensures es[j].key.user == es[k].key.user ==> !Visible(es, j, s) {
      assert Before(es[j].key, es[k].key);
      assert es[j] in Elements(es);
      assert Qualifies(es[j], es[k].key.user, s) ==> es[j].key.sequence <= es[k].key.sequence;
    }
  }

  /** Where an internal seek lands is where the view's own search lands. */
  lemma SeekPosition(es: seq<Entry>, s: SequenceNumber, target: UserKey)
    requires Ordered(es)
    ensures |View(es, SeekIndex(es, LookupKey(target, s)), s)| == SeekView(View(es, |es|, s), target)
  {
    var start := SeekIndex(es, LookupKey(target, s));
    var view := View(es, |es|, s);
    var q := |View(es, start, s)|;
    ViewPrefix(es, start, |es|, s);
    ViewAscends(es, s);
    forall i | 0 <= i < |view| ensures i < q <==> view[i].0 < target {
      var k := ViewElements(es, |es|, s, i);
      if k < start {
        ViewPrefix(es, k + 1, start, s);
        ShownInView(es, k, s);
        LookupSplits(target, s, es[k].key);
      } else {
        ViewPrefix(es, start, k, s);
        LookupSplits(target, s, es[start].key);
        assert start < k ==> Before(es[start].key, es[k].key);
      }
    }
    SplitIsUnique(view, target, q);
  }

  lemma SplitIsUnique(view: seq<(UserKey, Value)>, target: UserKey, q: nat)
    requires q <= |view| && forall i | 0 <= i < |view| :: i < q <==> view[i].0 < target
    ensures SeekView(view, target) == q
  {
    var r := SeekView(view, target);
    assert r < |view| ==> view[r].0 >= target;
    assert q < |view| ==> view[q].0 >= target;
  }

  // ---------------------------------------------------------------- the iterator

  class DBIter {
    const iter: MergingIterator
    const sequence: SequenceNumber
    var savedKey: Option<UserKey>
    var savedValue: Value
    var direction: Direction
    var valid: bool
    /** The internal entry the iterator stands for. */
    ghost var at: Position

    constructor (iter: MergingIterator, sequence: SequenceNumber)
      requires iter.Inv()
      ensures this.iter == iter && this.sequence == sequence && !valid && at == None && Inv()
    {
      this.iter, this.sequence := iter, sequence;
      savedKey, savedValue, direction, valid, at := None, [], Forward, false, None;
    }

    ghost predicate Inv()
      reads this, iter, iter.Repr()
    {
      && iter.Inv()
      && valid == at.Some?
      && (at.Some? ==>
            && Shown(iter.merged, at.value, sequence)
            && if direction.Forward? then iter.at == at else ReverseInv(at.value))
    }

    /**
     Backwards, the current entry m is saved, and the internal iterator rests before it on a smaller user key (or off
     the front), with nothing visible in between.
     */
    ghost predicate ReverseInv(m: nat)
      requires m < |iter.merged|
      reads this, iter, iter.Repr()
    {
      && savedKey == Some(iter.merged[m].key.user) && savedValue == iter.merged[m].value
      && (iter.Valid() ==> iter.Index() < m && iter.merged[iter.Index()].key.user < iter.merged[m].key.user)
      && forall k: nat | (if iter.Valid() then iter.Index() + 1 else 0) <= k < m :: !Visible(iter.merged, k, sequence)
    }

    /** The list the iterator runs over: user keys in ascending order with the values a reader sees. */
    ghost function Contents(): seq<(UserKey, Value)>
      reads this, iter, iter.Repr()
    {
      View(iter.merged, |iter.merged|, sequence)
    }

    ghost function At(): Position
      requires Inv()
      reads this, iter, iter.Repr()
    {
      PositionOf(iter.merged, sequence, at)
    }

    /** Key and value are those of the list at the iterator's position. */
    lemma CurrentPair()
      requires Inv() && valid
      ensures At().Some? && At().value < |Contents()| && Contents()[At().value] == (Key(), Value())
    {
      ShownInView(iter.merged, at.value, sequence);
    }

    /** Off the list there is no pair. */
    lemma NotOnPair()
      requires Inv() && !valid
      ensures At() == None
    {
    }

    function Key(): UserKey
      requires Inv() && valid
      reads this, iter, iter.Repr()
    {
      if direction.Forward? then iter.Key().user else savedKey.value
    }

    function Value(): Value
      requires Inv() && valid
      reads this, iter, iter.Repr()
    {
      if direction.Forward? then iter.Value() else savedValue
    }

    /** Looks at the entry the internal iterator is on: it is shown, or the scan goes on past it. */
    method LookAt(skipping: bool, ghost from: int) returns (shown: bool, skipping': bool)
      requires iter.Inv() && direction.Forward? && iter.Valid()
      requires Scanning(iter.merged, sequence, from, iter.Index(), skipping, savedKey)
      modifies this`savedKey, this`valid, this`at
      ensures shown ==> Inv() && FirstShownPast(iter.merged, sequence, from, at)
      ensures !shown ==> Scanning(iter.merged, sequence, from, iter.Index() + 1, skipping', savedKey)
    {
      shown, skipping' := false, skipping;
      var key := iter.Key();
      if key.sequence <= sequence {
        match key.kind {
          case TypeDeletion =>
            ScanDeletion(iter.merged, sequence, from, iter.Index(), skipping, savedKey);
            savedKey := Some(key.user);
            skipping' := true;
          case TypeValue =>
            if skipping && key.user <= savedKey.value {
              ScanPast(iter.merged, sequence, from, iter.Index(), skipping, savedKey);
            } else {
              ScanShows(iter.merged, sequence, from, iter.Index(), skipping, savedKey);
              shown, valid, at := true, true, Some(iter.Index());
              savedKey := None;
            }
        }
      } else {
        ScanPast(iter.merged, sequence, from, iter.Index(), skipping, savedKey);
      }
    }

    /** One entry on. */
    method GoOn(skipping: bool, ghost from: int)
      requires iter.Inv() && iter.Valid()
      requires Scanning(iter.merged, sequence, from, iter.Index() + 1, skipping, savedKey)
      modifies iter, iter.Repr()
      ensures iter.Inv() && iter.Index() == old(iter.Index()) + 1 && (iter.Valid() <==> iter.Index() < |iter.merged|)
      ensures Scanning(iter.merged, sequence, from, iter.Index(), skipping, savedKey)
    {
      ghost var n := iter.Index();
      iter.Next();
      assert iter.Index() == n + 1;
    }

    /** Scans forward from the internal iterator's position to the first entry that may be shown. */
    method FindNextUserEntry(skip0: bool, ghost from: int)
      requires iter.Inv() && direction.Forward? && iter.Valid()
      requires Scanning(iter.merged, sequence, from, iter.Index(), skip0, savedKey)
      modifies this, iter, iter.Repr()
      ensures direction.Forward? && Inv()
      ensures FirstShownPast(iter.merged, sequence, from, at)
    {
      var shown, skipping := false, skip0;
      while true
        invariant direction.Forward? && iter.Inv() && iter.Valid() && iter.Index() < |iter.merged|
        invariant Scanning(iter.merged, sequence, from, iter.Index(), skipping, savedKey)
        decreases |iter.merged| - iter.Index()
      {
        shown, skipping := LookAt(skipping, from);
        if shown {
          return;
        }
        GoOn(skipping, from);
        if !iter.Valid() {
          break;
        }
      }
      ScanEnds(iter.merged, sequence, from, iter.Index(), skipping, savedKey);
      Invalidate();
    }

    method Invalidate()
      requires iter.Inv()
      modifies this`savedKey, this`valid, this`at
      ensures Inv() && at == None
    {
      savedKey := None;
      valid, at := false, None;
    }

    /** One entry back. */
    method GoBack(ghost bound: nat, ghost m: Option<nat>)
      requires iter.Inv() && iter.Valid() && Retreating(iter.merged, sequence, bound, iter.Index(), m)
      modifies iter, iter.Repr()
      ensures iter.Inv() && iter.Looked() == old(iter.Index())
      ensures Retreating(iter.merged, sequence, bound, iter.Looked(), m)
    {
      ghost var n := iter.Index();
      iter.Prev();
      assert iter.Looked() == n;
    }

    /**
     Looks at the entry the internal iterator is on, going backward: an older user key ends the scan, and anything else
     that is visible replaces what was saved.
     */
    method LookBackAt(kind: ValueType, ghost bound: nat, ghost m: Option<nat>)
      returns (done: bool, kind': ValueType, ghost m': Option<nat>)
      requires iter.Inv() && iter.Valid() && iter.Looked() <= bound
      requires Retreating(iter.merged, sequence, bound, iter.Looked(), m) && Saved(kind, m)
      modifies this`savedKey, this`savedValue
      ensures done ==>
                && kind' == kind && m' == m && m.Some?
                && iter.merged[iter.Index()].key.user < iter.merged[m.value].key.user
      ensures !done ==> Retreating(iter.merged, sequence, bound, iter.Index(), m')
      ensures Saved(kind', m')
    {
      done, kind', m' := false, kind, m;
      var key := iter.Key();
      if key.sequence <= sequence {
        if !kind.TypeDeletion? && key.user < savedKey.value {
          done := true;
          return;
        }
        RetreatOnto(iter.merged, sequence, bound, iter.Looked(), m);
        kind' := key.kind;
        m' := if key.kind.TypeValue? then Some(iter.Index()) else None;
        if key.kind.TypeDeletion? {
          savedKey, savedValue := None, [];
        } else {
          savedKey, savedValue := Some(key.user), iter.Value();
        }
      } else {
        RetreatPast(iter.merged, sequence, bound, iter.Looked(), m);
      }
    }

    /** Looks at one entry and, unless that ends the scan, goes one entry back. */
    method StepBack(kind: ValueType, ghost bound: nat, ghost m: Option<nat>)
      returns (done: bool, kind': ValueType, ghost m': Option<nat>)
      requires iter.Inv() && iter.Valid() && iter.Looked() <= bound
      requires Retreating(iter.merged, sequence, bound, iter.Looked(), m) && Saved(kind, m)
      modifies this`savedKey, this`savedValue, iter, iter.Repr()
      ensures iter.Inv() && Saved(kind', m') && Retreating(iter.merged, sequence, bound, iter.Looked(), m')
      ensures iter.Looked() <= old(iter.Looked()) && (!done ==> iter.Looked() < old(iter.Looked()))
      ensures done ==>
                iter.Valid() && m'.Some? && iter.merged[iter.Index()].key.user < iter.merged[m'.value].key.user
    {
      done, kind', m' := LookBackAt(kind, bound, m);
      if !done {
        GoBack(bound, m');
      }
    }

    /** What a backward scan has saved is the value at place m. */
    ghost predicate Saved(kind: ValueType, m: Option<nat>)
      reads this
    {
      && (m.Some? <==> kind.TypeValue?)
      && (m.Some? ==>
            && m.value < |iter.merged|
            && savedKey == Some(iter.merged[m.value].key.user) && savedValue == iter.merged[m.value].value)
    }

    /** Scans backward for the last entry before bound that may be shown, saving it on the way. */
    method FindPrevUserEntry(ghost bound: nat)
      requires iter.Inv() && direction.Reverse? && iter.Looked() <= bound
      requires Retreating(iter.merged, sequence, bound, iter.Looked(), None)
      modifies this, iter, iter.Repr()
      ensures Inv() && LastShownBefore(iter.merged, sequence, bound, at)
    {
      var done, kind := false, TypeDeletion;
      ghost var m: Option<nat> := None;
      while iter.Valid()
        invariant direction.Reverse? && iter.Inv() && iter.Looked() <= bound
        invariant Retreating(iter.merged, sequence, bound, iter.Looked(), m) && Saved(kind, m)
        decreases iter.Looked()
      {
        done, kind, m := StepBack(kind, bound, m);
        if done {
          break;
        }
      }
      Settle(kind, bound, m);
    }

    /** The end of FindPrevUserEntry: what was saved, if anything, is where the iterator now stands. */
    method Settle(kind: ValueType, ghost bound: nat, ghost m: Option<nat>)
      requires iter.Inv() && direction.Reverse? && Saved(kind, m) && iter.Looked() <= bound
      requires Retreating(iter.merged, sequence, bound, iter.Looked(), m)
      requires !iter.Valid() || (m.Some? && iter.merged[iter.Index()].key.user < iter.merged[m.value].key.user)
      modifies this
      ensures Inv() && LastShownBefore(iter.merged, sequence, bound, at)
    {
      RetreatDone(iter.merged, sequence, bound, iter.Looked(), m);
      at := m;
      if kind.TypeDeletion? {
        valid := false;
        savedKey, savedValue := None, [];
        direction := Forward;
      } else {
        valid := true;
      }
    }

    // -------------------------------------------------------------- the five movements

    method Next()
      requires Inv() && valid
      modifies this, iter, iter.Repr()
      ensures Inv() && At() == Following(|Contents()|, old(At()).value)
    {
      ghost var i := at.value;
      Leave();
      FindNextUserEntry(true, i);
      NextPosition(iter.merged, sequence, i, at);
    }

    /** Next up to its scan: the user key of the entry it leaves is saved, and is to be skipped. */
    method Leave()
      requires Inv() && valid
      modifies this`savedKey, this`direction, iter, iter.Repr()
      ensures iter.Inv() && direction.Forward? && iter.Valid()
      ensures Scanning(iter.merged, sequence, at.value, iter.Index(), true, savedKey)
    {
      if direction.Reverse? {
        TurnForward();
      } else {
        savedKey := Some(iter.Key().user);
        LeavingStartsScan(iter.merged, sequence, at.value);
      }
    }

    /** Going forward again: the internal iterator is before the saved entry, and moves on to the next one. */
    method TurnForward()
      requires Inv() && valid && direction.Reverse?
      modifies this`direction, iter, iter.Repr()
      ensures iter.Inv() && direction.Forward? && iter.Valid()
      ensures Scanning(iter.merged, sequence, at.value, iter.Index(), true, savedKey)
    {
      ghost var start := iter.Looked();
      TurnStartsScan(iter.merged, sequence, at.value, start);
      direction := Forward;
      MoveOn();
      assert savedKey == Some(iter.merged[at.value].key.user) && iter.Index() == start;
      if !iter.Valid() {
        // The code gives up here; the saved entry is still ahead, so this cannot happen.
        assert false;
      }
    }

    /** To the entry after the one the internal iterator is on, or to the first one. */
    method MoveOn()
      requires iter.Inv()
      modifies iter, iter.Repr()
      ensures iter.Inv() && iter.Index() == old(iter.Looked()) && (iter.Valid() <==> iter.Index() < |iter.merged|)
    {
      ghost var start := iter.Looked();
      if !iter.Valid() {
        iter.SeekToFirst();
      } else {
        iter.Next();
      }
      assert iter.Index() == start;
    }

    method Prev()
      requires Inv() && valid
      modifies this, iter, iter.Repr()
      ensures Inv() && At() == Preceding(old(At()).value)
    {
      ghost var i := at.value;
      if direction.Forward? {
        savedKey := Some(iter.Key().user);
        var more := PassUserKey(i);
        if !more {
          LastBeforePosition(iter.merged, sequence, i, None);
          Invalidate();
          savedValue := [];
          return;
        }
        direction := Reverse;
      }
      FindPrevUserEntry(i);
      LastBeforePosition(iter.merged, sequence, i, at);
    }

    /** The scan of Prev back over the entries of the current user key. */
    method PassUserKey(ghost i: nat) returns (more: bool)
      requires Inv() && valid && direction.Forward? && at == Some(i) && savedKey == Some(iter.merged[i].key.user)
      modifies iter, iter.Repr()
      ensures iter.Inv() && more == iter.Valid()
      ensures if more then iter.Looked() <= i && Retreating(iter.merged, sequence, i, iter.Looked(), None)
              else LastShownBefore(iter.merged, sequence, i, None)
    {
      while true
        invariant iter.Inv() && iter.Valid() && iter.Index() <= i
        invariant forall k | iter.Index() <= k <= i :: iter.merged[k].key.user == iter.merged[i].key.user
        decreases iter.Index()
      {
        iter.Prev();
        if !iter.Valid() {
          return false;
        }
        if iter.Key().user < savedKey.value {
          return true;
        }
        assert iter.Index() < i ==> Before(iter.merged[iter.Index()].key, iter.merged[i].key);
      }
    }

    method Seek(target: UserKey)
      requires Inv()
      modifies this, iter, iter.Repr()
      ensures Inv() && At() == AtIndex(|Contents()|, SeekView(Contents(), target))
    {
      ghost var start := SeekIndex(iter.merged, LookupKey(target, sequence));
      direction := Forward;
      savedValue := [];
      savedKey := None;
      iter.Seek(LookupKey(target, sequence));
      SeekStartsScan(iter.merged, target, sequence);
      ScanFrom(start);
      SeekPosition(iter.merged, sequence, target);
    }

    method SeekToFirst()
      requires Inv()
      modifies this, iter, iter.Repr()
      ensures Inv() && At() == First(|Contents()|)
    {
      direction := Forward;
      savedValue := [];
      iter.SeekToFirst();
      ScanFrom(0);
    }

    /** The end of both: from where the internal iterator was put, to the first entry to be shown. */
    method ScanFrom(ghost start: nat)
      requires iter.Inv() && direction.Forward? && start <= |iter.merged| && iter.at == AtIndex(|iter.merged|, start)
      requires Scanning(iter.merged, sequence, start - 1, start, false, savedKey)
      modifies this, iter, iter.Repr()
      ensures Inv() && At() == AtIndex(|Contents()|, |View(iter.merged, start, sequence)|)
    {
      if iter.Valid() {
        FindNextUserEntry(false, start - 1);
      } else {
        valid, at := false, None;
      }
      FirstPastPosition(iter.merged, sequence, start, at);
    }

    method SeekToLast()
      requires Inv()
      modifies this, iter, iter.Repr()
      ensures Inv() && At() == Last(|Contents()|)
    {
      direction := Reverse;
      savedValue := [];
      iter.SeekToLast();
      FindPrevUserEntry(|iter.merged|);
      LastBeforePosition(iter.merged, sequence, |iter.merged|, at);
    }
  }

  lemma NextPosition(es: seq<Entry>, s: nat, i: nat, at: Position)
    requires Shown(es, i, s) && FirstShownPast(es, s, i, at)
    ensures PositionOf(es, s, at) == Following(|View(es, |es|, s)|, |View(es, i, s)|)
  {
    ShownInView(es, i, s);
    FirstPastPosition(es, s, i + 1, at);
  }

  /** Turning around before the saved entry m: the scan sets out from it, skipping its user key. */
  lemma TurnStartsScan(es: seq<Entry>, s: nat, m: nat, start: nat)
    requires Ordered(es) && Shown(es, m, s) && start <= m
    requires start > 0 ==> es[start - 1].key.user < es[m].key.user
    requires forall k: nat | start <= k < m :: !Visible(es, k, s)
    ensures Scanning(es, s, m, start, true, Some(es[m].key.user))
  {
    forall j: nat, k: nat | j < start <= k < |es| && es[j].key.user == es[k].key.user
      ensures es[k].key.user <= es[m].key.user
    {
      assert j < start - 1 ==> Before(es[j].key, es[start - 1].key);
    }
    forall k: nat | start <= k < |es| && es[k].key.user <= es[m].key.user && m < k
      ensures !Shown(es, k, s)
    {
      assert Before(es[m].key, es[k].key);
    }
  }

  /** Setting out from a shown entry: the scan skips its user key. */
  lemma LeavingStartsScan(es: seq<Entry>, s: nat, m: nat)
    requires Ordered(es) && Shown(es, m, s)
    ensures Scanning(es, s, m, m, true, Some(es[m].key.user))
  {
    forall j: nat, k: nat | j < m <= k < |es| && Visible(es, j, s) && es[j].key.user == es[k].key.user
      ensures es[k].key.user <= es[m].key.user
    {
      assert Before(es[j].key, es[m].key);
      assert m < k ==> Before(es[m].key, es[k].key);
    }
    forall k: nat | m <= k < |es| && es[k].key.user <= es[m].key.user && m < k
      ensures !Shown(es, k, s)
    {
      assert Before(es[m].key, es[k].key);
    }
  }

  lemma SeekStartsScan(es: seq<Entry>, target: UserKey, s: SequenceNumber)
    requires Ordered(es)
    ensures var i := SeekIndex(es, LookupKey(target, s)); Scanning(es, s, i - 1, i, false, None)
  {
    var i := SeekIndex(es, LookupKey(target, s));
    forall j: nat, k: nat | j < i <= k < |es| && Visible(es, j, s) ensures es[j].key.user != es[k].key.user {
      LookupSplits(target, s, es[j].key);
      LookupSplits(target, s, es[i].key);
      assert i < k ==> Before(es[i].key, es[k].key);
    }
  }
}
