/**
 The compaction loop: which entries DoCompactionWork keeps, how it cuts them into output files, and when dropping
 the rest leaves every permitted read unchanged.
 */
module Compacting {
  import opened Keys
  import opened Reads
  import opened Versions

  predicate Covers(f: File, u: UserKey) {
    f.smallest.user <= u <= f.largest.user
  }

  /** No file below the output level covers u. */
  ghost predicate IsBaseLevel(v: Version, level: nat, u: UserKey) {
    forall l, f | level + 2 <= l < NUM_LEVELS && f in v[l] :: !Covers(f, u)
  }

  // ---------------------------------------------------------------- the drop rule

  /** What last_sequence_for_key holds when entry i is looked at. */
  function LastSequenceForKey(input: seq<Entry>, i: nat): SequenceNumber
    requires i < |input|
  {
    if i > 0 && input[i - 1].key.user == input[i].key.user then input[i - 1].key.sequence else MAX_SEQUENCE
  }

  /** Rule (A): a newer entry of the same key is already visible to the oldest snapshot. */
  predicate Hidden(input: seq<Entry>, i: nat, snap: SequenceNumber)
    requires i < |input|
  {
    LastSequenceForKey(input, i) <= snap
  }

  /** A deletion every snapshot sees, with nothing for its key in the levels below the output. */
  ghost predicate Obsolete(input: seq<Entry>, i: nat, v: Version, level: nat, snap: SequenceNumber)
    requires i < |input|
  {
    && !Hidden(input, i, snap)
    && input[i].key.kind.TypeDeletion?
    && input[i].key.sequence <= snap
    && IsBaseLevel(v, level, input[i].key.user)
  }

  ghost predicate Dropped(input: seq<Entry>, i: nat, v: Version, level: nat, snap: SequenceNumber)
    requires i < |input|
  {
    Hidden(input, i, snap) || Obsolete(input, i, v, level, snap)
  }

  /** The entries that survive among the first n. */
  ghost function Kept(input: seq<Entry>, n: nat, v: Version, level: nat, snap: SequenceNumber): seq<Entry>
    requires n <= |input|
  {
    if n == 0 then []
    else if Dropped(input, n - 1, v, level, snap) then Kept(input, n - 1, v, level, snap)
    else Kept(input, n - 1, v, level, snap) + [input[n - 1]]
  }

  lemma {:induction false} KeptElements(input: seq<Entry>, n: nat, v: Version, level: nat, snap: SequenceNumber)
    requires n <= |input|
    ensures forall e :: e in Kept(input, n, v, level, snap)
              <==> exists i :: 0 <= i < n && input[i] == e && !Dropped(input, i, v, level, snap)
  {
    if n > 0 {
      KeptElements(input, n - 1, v, level, snap);
    }
  }

  lemma {:induction false} KeptOrdered(input: seq<Entry>, n: nat, v: Version, level: nat, snap: SequenceNumber)
    requires n <= |input| && Ordered(input)
    ensures Ordered(Kept(input, n, v, level, snap))
  {
    if n > 0 {
      KeptOrdered(input, n - 1, v, level, snap);
      KeptElements(input, n - 1, v, level, snap);
      var k := Kept(input, n - 1, v, level, snap);
      forall j | 0 <= j < |k| ensures Before(k[j].key, input[n - 1].key) {
        assert k[j] in k;
        var i :| 0 <= i < n - 1 && input[i] == k[j];
      }
    }
  }

  // ---------------------------------------------------------------- reads after dropping

  ghost function KeptAll(input: seq<Entry>, v: Version, level: nat, snap: SequenceNumber): iset<Entry> {
    Elements(Kept(input, |input|, v, level, snap))
  }

  /** The newest visible entry of a key is never hidden by rule (A). */
  lemma NewestIsNotHidden(input: seq<Entry>, i: nat, snap: SequenceNumber, s: SequenceNumber)
    requires Ordered(input) && i < |input| && snap <= s && snap < MAX_SEQUENCE
    requires IsNewest(Elements(input), input[i].key.user, s, input[i])
    ensures !Hidden(input, i, snap)
  {
    if i > 0 {
      var e, u := input[i - 1], input[i].key.user;
      assert Before(e.key, input[i].key);
      assert e in Elements(input);
      assert e.key.user == u && e.key.sequence <= s ==> Qualifies(e, u, s);
    }
  }

  /** Once an entry visible to the oldest snapshot has been seen, rule (A) drops every older entry of its key. */
  lemma OlderAreHidden(input: seq<Entry>, i: nat, j: nat, snap: SequenceNumber)
    requires Ordered(input) && i < j < |input| && input[i].key.user == input[j].key.user
    requires input[i].key.sequence <= snap
    ensures Hidden(input, j, snap)
  {
    assert Before(input[j - 1].key, input[j].key);
    if i < j - 1 {
      assert Before(input[i].key, input[j - 1].key);
    }
  }

  /** An obsolete deletion is the newest entry of its key that the oldest snapshot sees. */
  lemma ObsoleteIsNewest(input: seq<Entry>, i: nat, v: Version, level: nat, snap: SequenceNumber)
    requires Ordered(input) && i < |input| && Obsolete(input, i, v, level, snap)
    ensures IsNewest(Elements(input), input[i].key.user, snap, input[i])
  {
    var u := input[i].key.user;
    assert i > 0 ==> Before(input[i - 1].key, input[i].key);
    forall x | x in Elements(input) ensures Qualifies(x, u, snap) ==> x.key.sequence <= input[i].key.sequence {
      var j :| 0 <= j < |input| && input[j] == x;
      assert j < i - 1 ==> Before(input[j].key, input[i - 1].key);
      assert i < j ==> Before(input[i].key, input[j].key);
    }
  }

  /** If no obsolete deletion is the newest visible entry of the key, dropping changes nothing for that read. */
  lemma DropKeepsRead(input: seq<Entry>, v: Version, level: nat, snap: SequenceNumber, others: iset<Entry>,
                      u: UserKey, s: SequenceNumber)
    requires Ordered(input) && snap <= s && snap < MAX_SEQUENCE
    requires UniqueSeqs(others) && NewerThan(Elements(input), others)
    requires forall i | 0 <= i < |input| && Obsolete(input, i, v, level, snap) ::
               !IsNewest(Elements(input), u, s, input[i])
    ensures Read(KeptAll(input, v, level, snap) + others, u, s) == Read(Elements(input) + others, u, s)
  {
    KeptLayers(input, v, level, snap, others, u, s);
    if e :| e in Elements(input) && Qualifies(e, u, s) {
      var n := NewestExists(Elements(input), u, s, e);
      var i :| 0 <= i < |input| && input[i] == n;
      NewestIsNotHidden(input, i, snap, s);
      assert n in KeptAll(input, v, level, snap) by { KeptElements(input, |input|, v, level, snap); }
      SameNewest(KeptAll(input, v, level, snap), Elements(input), u, s, n);
    }
  }

  lemma SameNewest(some: iset<Entry>, all: iset<Entry>, u: UserKey, s: SequenceNumber, n: Entry)
    requires some <= all && UniqueSeqs(all) && IsNewest(all, u, s, n) && n in some
    ensures HasEntry(some, u, s) && HasEntry(all, u, s) && Read(some, u, s) == Read(all, u, s)
  {
    ReadIs(all, u, s, n);
    ReadIs(some, u, s, n);
  }

  /** If an obsolete deletion is the newest visible entry, the read falls through to the entries outside the input. */
  lemma DropFallsThrough(input: seq<Entry>, v: Version, level: nat, snap: SequenceNumber, others: iset<Entry>,
                         i: nat, s: SequenceNumber)
    requires Ordered(input) && snap <= s && i < |input| && Obsolete(input, i, v, level, snap)
    requires UniqueSeqs(others) && NewerThan(Elements(input), others)
    requires IsNewest(Elements(input), input[i].key.user, s, input[i])
    ensures Read(Elements(input) + others, input[i].key.user, s) == NotFound
    ensures Read(KeptAll(input, v, level, snap) + others, input[i].key.user, s) == Read(others, input[i].key.user, snap)
  {
    var u := input[i].key.user;
    KeptLayers(input, v, level, snap, others, u, s);
    ReadIs(Elements(input), u, s, input[i]);
    assert HasEntry(Elements(input), u, s);
    KeptElements(input, |input|, v, level, snap);
    forall e | e in KeptAll(input, v, level, snap) ensures !Qualifies(e, u, s) {
      var j :| 0 <= j < |input| && input[j] == e && !Dropped(input, j, v, level, snap);
      assert e in Elements(input);
      if e.key.user == u && i < j {
        OlderAreHidden(input, i, j, snap);
      }
      assert j < i ==> Before(input[j].key, input[i].key);
    }
    SnapshotsAgree(others, u, input[i].key.sequence, snap, s);
  }

  /** Snapshots that see the same entries of a key read the same. */
  lemma SnapshotsAgree(S: iset<Entry>, u: UserKey, bound: nat, s: nat, t: nat)
    requires UniqueSeqs(S) && bound <= s && bound <= t
    requires forall e | e in S && e.key.user == u :: e.key.sequence < bound
    ensures Read(S, u, s) == Read(S, u, t)
  {
    if e :| e in S && Qualifies(e, u, s) {
      var n := NewestExists(S, u, s, e);
      ReadIs(S, u, s, n);
      ReadIs(S, u, t, n);
    } else {
      ReadNothing(S, u, s);
      ReadNothing(S, u, t);
    }
  }

  lemma KeptLayers(input: seq<Entry>, v: Version, level: nat, snap: SequenceNumber, others: iset<Entry>,
                   u: UserKey, s: SequenceNumber)
    requires Ordered(input) && UniqueSeqs(others) && NewerThan(Elements(input), others)
    ensures UniqueSeqs(Elements(input)) && UniqueSeqs(KeptAll(input, v, level, snap))
    ensures KeptAll(input, v, level, snap) <= Elements(input)
    ensures var I := Elements(input);
            Read(I + others, u, s) == if HasEntry(I, u, s) then Read(I, u, s) else Read(others, u, s)
    ensures var K := KeptAll(input, v, level, snap);
            Read(K + others, u, s) == if HasEntry(K, u, s) then Read(K, u, s) else Read(others, u, s)
  {
    OrderedHasUniqueSeqs(input);
    KeptElements(input, |input|, v, level, snap);
    SomeOf(KeptAll(input, v, level, snap), Elements(input), others);
    LayeredRead(Elements(input), others, u, s);
    LayeredRead(KeptAll(input, v, level, snap), others, u, s);
  }

  lemma SomeOf(some: iset<Entry>, all: iset<Entry>, others: iset<Entry>)
    requires some <= all && UniqueSeqs(all) && NewerThan(all, others)
    ensures UniqueSeqs(some) && NewerThan(some, others)
  {
  }

  /** A read survives dropping if no obsolete deletion that decides it was hiding a value among the others. */
  lemma HidingNothingKeepsRead(input: seq<Entry>, v: Version, level: nat, snap: SequenceNumber, others: iset<Entry>,
                               u: UserKey, s: SequenceNumber)
    requires Ordered(input) && snap <= s && snap < MAX_SEQUENCE
    requires UniqueSeqs(others) && NewerThan(Elements(input), others)
    requires forall i | 0 <= i < |input| && Obsolete(input, i, v, level, snap)
               && IsNewest(Elements(input), u, s, input[i])
               :: Read(others, u, snap) == NotFound
    ensures Read(KeptAll(input, v, level, snap) + others, u, s) == Read(Elements(input) + others, u, s)
  {
    if i :| 0 <= i < |input| && Obsolete(input, i, v, level, snap) && IsNewest(Elements(input), u, s, input[i]) {
      DropFallsThrough(input, v, level, snap, others, i, s);
    } else {
      DropKeepsRead(input, v, level, snap, others, u, s);
    }
  }

  /** Every read that a live or future snapshot can make. */
  ghost predicate SameReads(A: iset<Entry>, B: iset<Entry>, snap: nat) {
    forall u: UserKey, s: SequenceNumber | s >= snap :: Read(A, u, s) == Read(B, u, s)
  }

  /**
   Dropping is safe exactly when no obsolete deletion was still hiding a value outside the input. The others are
   whatever entries of those keys exist below or beside the input; IsBaseLevelForKey rules out the ones below.
   */
  lemma DropIsSafeExactlyWhen(input: seq<Entry>, v: Version, level: nat, snap: SequenceNumber, others: iset<Entry>)
    requires Ordered(input) && snap < MAX_SEQUENCE
    requires UniqueSeqs(others) && NewerThan(Elements(input), others)
    ensures SameReads(KeptAll(input, v, level, snap) + others, Elements(input) + others, snap)
       <==> forall i | 0 <= i < |input| && Obsolete(input, i, v, level, snap)
              :: Read(others, input[i].key.user, snap) == NotFound
  {
    var kept := KeptAll(input, v, level, snap);
    forall i | 0 <= i < |input| && Obsolete(input, i, v, level, snap)
      ensures Read(Elements(input) + others, input[i].key.user, snap) == NotFound
      ensures Read(kept + others, input[i].key.user, snap) == Read(others, input[i].key.user, snap)
    {
      ObsoleteIsNewest(input, i, v, level, snap);
      DropFallsThrough(input, v, level, snap, others, i, snap);
    }
    if forall i | 0 <= i < |input| && Obsolete(input, i, v, level, snap)
         :: Read(others, input[i].key.user, snap) == NotFound
    {
      forall u: UserKey, s: SequenceNumber | s >= snap
        ensures Read(kept + others, u, s) == Read(Elements(input) + others, u, s)
      {
        HidingNothingKeepsRead(input, v, level, snap, others, u, s);
      }
    }
  }

  // ---------------------------------------------------------------- the loop

  ghost function Flatten(files: seq<File>): seq<Entry> {
    if files == [] then [] else Flatten(files[..|files| - 1]) + files[|files| - 1].entries
  }

  /** Output files: well formed, numbered from first on, and listing ascending keys across files. */
  ghost predicate OutputsOk(outputs: seq<File>, first: nat) {
    forall i | 0 <= i < |outputs| :: FileOk(outputs[i]) && outputs[i].number == first + i
  }

  /** A compaction in progress: its base version, the moving per-level file pointers, and the output written so far. */
  class CompactionState {
    const base: Version
    const level: nat
    const smallestSnapshot: SequenceNumber
    var levelPtrs: seq<nat>
    var outputs: seq<File>
    var builder: Option<seq<Entry>>
    var nextFile: nat

    constructor (base: Version, level: nat, smallestSnapshot: SequenceNumber, nextFile: nat)
      requires VersionOk(base)
      ensures this.base == base && this.level == level && this.smallestSnapshot == smallestSnapshot
      ensures this.nextFile == nextFile && outputs == [] && builder == None
      ensures Valid() && forall u: UserKey :: PointersBehind(u)
    {
      this.base, this.level, this.smallestSnapshot, this.nextFile := base, level, smallestSnapshot, nextFile;
      levelPtrs := seq(NUM_LEVELS, _ => 0);
      outputs, builder := [], None;
    }

    ghost predicate Valid()
      reads this`levelPtrs
    {
      VersionOk(base) && |levelPtrs| == NUM_LEVELS
      && (forall l | 0 <= l < NUM_LEVELS :: levelPtrs[l] <= |base[l]|)
    }

    /** Every file a pointer has passed ends before u. */
    ghost predicate PointersBehind(u: UserKey)
      requires Valid()
      reads this`levelPtrs
    {
      forall l, i | 0 <= l < NUM_LEVELS && 0 <= i < levelPtrs[l] :: base[l][i].largest.user < u
    }

    lemma PointersStayBehind(u: UserKey, w: UserKey)
      requires Valid() && PointersBehind(u) && u <= w
      ensures PointersBehind(w)
    {
    }

    /** Moves one level's pointer past the files that end before u, and tells whether the file it stops at covers u. */
    method AdvancePointer(l: nat, u: UserKey) returns (covers: bool)
      requires Valid() && PointersBehind(u) && 0 < l < NUM_LEVELS
      modifies this`levelPtrs
      ensures Valid() && PointersBehind(u)
      ensures covers <==> exists f :: f in base[l] && Covers(f, u)
    {
      assert LevelOk(base[l], l);
      LargestKeysAscend(base[l]);
      while levelPtrs[l] < |base[l]|
        invariant Valid() && PointersBehind(u)
        decreases |base[l]| - levelPtrs[l]
      {
        var f := base[l][levelPtrs[l]];
        if u <= f.largest.user {
          covers := u >= f.smallest.user;
          assert f in base[l];
          assert forall i | levelPtrs[l] < i < |base[l]| :: Before(f.smallest, base[l][i].smallest);
          return;
        }
        levelPtrs := levelPtrs[l := levelPtrs[l] + 1];
      }
      covers := false;
    }

    /** Exact for keys asked in ascending order, although the pointers only ever move forward. */
    method IsBaseLevelForKey(u: UserKey) returns (r: bool)
      requires Valid() && PointersBehind(u)
      modifies this`levelPtrs
      ensures Valid() && PointersBehind(u)
      ensures r <==> IsBaseLevel(base, level, u)
    {
      var l := level + 2;
      while l < NUM_LEVELS
        invariant level + 2 <= l
        invariant Valid() && PointersBehind(u)
        invariant forall m, f | level + 2 <= m < l && m < NUM_LEVELS && f in base[m] :: !Covers(f, u)
      {
        var covers := AdvancePointer(l, u);
        if covers {
          return false;
        }
        l := l + 1;
      }
      r := true;
    }

    /** The entries written so far, in order. */
    ghost function Written(): seq<Entry>
      reads this`outputs, this`builder
    {
      Flatten(outputs) + if builder.Some? then builder.value else []
    }

    /** What must hold between entries: the file being built is not empty, and numbers were handed out in order. */
    ghost predicate Building(first: nat)
      reads this`outputs, this`builder, this`nextFile
    {
      && first + |outputs| + (if builder.Some? then 1 else 0) == nextFile
      && (builder.Some? ==> builder.value != [])
      && OutputsOk(outputs, first)
    }

    /** Closes the output file being built; its byte size is whatever the table builder made of it. */
    method FinishCompactionOutputFile(ghost first: nat, size: nat)
      requires Building(first) && builder.Some? && Ordered(Written())
      modifies this`outputs, this`builder
      ensures Building(first) && Written() == old(Written()) && builder == None
    {
      var es := builder.value;
      SuffixOrdered(Flatten(outputs), es);
      var f := File(nextFile - 1, size, es[0].key, es[|es| - 1].key, es);
      assert (outputs + [f])[..|outputs|] == outputs;
      outputs := outputs + [f];
      builder := None;
    }

    /**
     A point where the loop may close the current output file: too much grandparent overlap before an entry, or a
     big enough table after one. Both depend on sizes only, so either answer is possible.
     */
    method MaybeCut(ghost first: nat, ghost input: seq<Entry>, ghost n: nat, must: bool)
      requires Building(first) && Ordered(input) && n <= |input|
      requires Written() == Kept(input, n, base, level, smallestSnapshot)
      modifies this`outputs, this`builder
      ensures Building(first) && Written() == old(Written())
      ensures must ==> builder == None
    {
      var cut: bool, size: nat := *, *;
      if builder.Some? && (must || cut) {
        KeptOrdered(input, n, base, level, smallestSnapshot);
        FinishCompactionOutputFile(first, size);
      }
    }

    /** Appends a surviving entry, opening an output file under a fresh number if none is open. */
    method AddToOutput(ghost first: nat, e: Entry)
      requires Building(first)
      modifies this`builder, this`nextFile
      ensures Building(first) && builder.Some? && Written() == old(Written()) + [e]
    {
      if builder.None? {
        nextFile := nextFile + 1;
        builder := Some([]);
      }
      builder := Some(builder.value + [e]);
    }

    /** An entry that is not dropped: into the output, which may then be big enough. */
    method KeepEntry(ghost first: nat, input: seq<Entry>, i: nat)
      requires Building(first) && Ordered(input) && i < |input| && !Dropped(input, i, base, level, smallestSnapshot)
      requires Written() == Kept(input, i, base, level, smallestSnapshot)
      modifies this`outputs, this`builder, this`nextFile
      ensures Building(first) && Written() == Kept(input, i + 1, base, level, smallestSnapshot)
    {
      AddToOutput(first, input[i]);
      MaybeCut(first, input, i + 1, false);
    }

    lemma MoveOn(input: seq<Entry>, i: nat)
      requires Valid() && Ordered(input) && i < |input| && PointersBehind(input[i].key.user)
      ensures i + 1 < |input| ==> PointersBehind(input[i + 1].key.user)
    {
      if i + 1 < |input| {
        assert Before(input[i].key, input[i + 1].key);
        PointersStayBehind(input[i].key.user, input[i + 1].key.user);
      }
    }

    /** The drop decision for the next key, with the loop's two remembered values moved on to it. */
    method ShouldDrop(ghost input: seq<Entry>, ghost i: nat, key: InternalKey, current: Option<UserKey>,
                      last: SequenceNumber)
      returns (drop: bool, currentUserKey: Option<UserKey>, lastSequenceForKey: SequenceNumber)
      requires Valid() && i < |input| && key == input[i].key && PointersBehind(key.user)
      requires current == if i == 0 then None else Some(input[i - 1].key.user)
      requires i > 0 ==> last == input[i - 1].key.sequence
      modifies this`levelPtrs
      ensures Valid() && PointersBehind(key.user)
      ensures currentUserKey == Some(key.user) && lastSequenceForKey == key.sequence
      ensures drop <==> Dropped(input, i, base, level, smallestSnapshot)
    {
      currentUserKey, lastSequenceForKey := current, last;
      drop := false;
      if currentUserKey.None? || key.user != currentUserKey.value {
        currentUserKey := Some(key.user);
        lastSequenceForKey := MAX_SEQUENCE;
      }
      if lastSequenceForKey <= smallestSnapshot {
        drop := true;
      } else if key.kind.TypeDeletion? && key.sequence <= smallestSnapshot {
        drop := IsBaseLevelForKey(key.user);
      }
      lastSequenceForKey := key.sequence;
    }

    /**
     DoCompactionWork over the merged input. When to cut a file depends on grandparent overlap and on table size;
     both are left open here, so the result holds for every way of cutting.
     */
    method DoCompactionWork(input: seq<Entry>)
      requires Valid() && outputs == [] && builder == None && Ordered(input)
      requires forall u: UserKey :: PointersBehind(u)
      modifies this
      ensures Valid() && builder == None
      ensures Flatten(outputs) == Kept(input, |input|, base, level, smallestSnapshot)
      ensures nextFile == old(nextFile) + |outputs| && OutputsOk(outputs, old(nextFile))
    {
      ghost var first := nextFile;
      var currentUserKey: Option<UserKey> := None;
      var lastSequenceForKey: SequenceNumber := MAX_SEQUENCE;
      var i := 0;
      while i < |input|
        invariant 0 <= i <= |input|
        invariant Valid() && (i < |input| ==> PointersBehind(input[i].key.user))
        invariant currentUserKey == if i == 0 then None else Some(input[i - 1].key.user)
        invariant i > 0 ==> lastSequenceForKey == input[i - 1].key.sequence
        invariant Building(first)
        invariant Written() == Kept(input, i, base, level, smallestSnapshot)
      {
        MaybeCut(first, input, i, false);
        var drop;
        drop, currentUserKey, lastSequenceForKey :=
          ShouldDrop(input, i, input[i].key, currentUserKey, lastSequenceForKey);
        if !drop {
          KeepEntry(first, input, i);
        }
        MoveOn(input, i);
        i := i + 1;
      }
      MaybeCut(first, input, i, true);
    }
  }

  lemma SuffixOrdered(a: seq<Entry>, b: seq<Entry>)
    requires Ordered(a + b)
    ensures Ordered(b)
  {
    forall i, j | 0 <= i < j < |b| ensures Before(b[i].key, b[j].key) {
      assert (a + b)[|a| + i] == b[i] && (a + b)[|a| + j] == b[j];
    }
  }
}
