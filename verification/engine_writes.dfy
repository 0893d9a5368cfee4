/**
 What writes leave behind. The engine stores entries under sequence numbers; a caller wrote puts and deletions, one
 batch after another, and expects each user key to read as the last of them says (WriteBatchInternal::InsertInto in
 write_batch.cc, DBImpl::Write in db_impl.cc).
 */
module EngineWrites {
  import opened Engine
  import opened Keys
  import opened Reads
  import opened Versions

  // ---------------------------------------------------------------- what a caller wrote

  /** What the operation leaves its user key at. */
  function LeftBy(op: Operation): Answer {
    match op.kind
    case TypeValue => Found(op.value)
    case TypeDeletion => NotFound
  }

  /** The user key after these operations in turn, starting from an empty database: the last one on it decides. */
  function LastOn(operations: seq<Operation>, u: UserKey): Answer {
    if operations == [] then NotFound
    else
      var last := operations[|operations| - 1];
      if last.user == u then LeftBy(last) else LastOn(operations[..|operations| - 1], u)
  }

  ghost predicate IsLastOn(operations: seq<Operation>, u: UserKey, i: nat) {
    i < |operations| && operations[i].user == u && forall j | i < j < |operations| :: operations[j].user != u
  }

  ghost predicate Untouched(operations: seq<Operation>, u: UserKey) {
    forall i | 0 <= i < |operations| :: operations[i].user != u
  }

  lemma {:induction false} LastOnIs(operations: seq<Operation>, u: UserKey, i: nat)
    requires IsLastOn(operations, u, i)
    ensures LastOn(operations, u) == LeftBy(operations[i])
  {
    if i < |operations| - 1 {
      assert operations[|operations| - 1].user != u;
      LastOnIs(operations[..|operations| - 1], u, i);
    }
  }

  lemma {:induction false} LastOnNone(operations: seq<Operation>, u: UserKey)
    requires Untouched(operations, u)
    ensures LastOn(operations, u) == NotFound
  {
    if operations != [] {
      assert operations[|operations| - 1].user != u;
      LastOnNone(operations[..|operations| - 1], u);
    }
  }

  /** All operations of a run's writes, in order. */
  function Written(steps: seq<Step>): seq<Operation> {
    if steps == [] then []
    else
      var last := steps[|steps| - 1];
      Written(steps[..|steps| - 1]) + if last.Write? then last.operations else []
  }

  /** The first n of the operations that a run has written by state i. */
  function WrittenBy(steps: seq<Step>, i: nat, n: nat): seq<Operation>
    requires i <= |steps|
  {
    var all := Written(steps[..i]);
    if n <= |all| then all[..n] else all
  }

  // ---------------------------------------------------------------- one batch

  /** The entry of the last operation on a user key is the newest that the batch has for it. */
  lemma LastIsNewest(operations: seq<Operation>, first: nat, u: UserKey, s: nat, i: nat)
    requires first + |operations| <= MAX_SEQUENCE && first + i <= s && i < |operations| && operations[i].user == u
    requires forall j | i < j < |operations| && first + j <= s :: operations[j].user != u
    ensures Read(Elements(BatchEntries(operations, first)), u, s) == LeftBy(operations[i])
    ensures HasEntry(Elements(BatchEntries(operations, first)), u, s)
  {
    var es := BatchEntries(operations, first);
    assert es[i] in Elements(es) && Qualifies(es[i], u, s);
    BatchIsFresh(operations, first);
    ReadIs(Elements(es), u, s, es[i]);
  }

  lemma NoneIsNewest(operations: seq<Operation>, first: nat, u: UserKey, s: nat)
    requires first + |operations| <= MAX_SEQUENCE
    requires forall j | 0 <= j < |operations| && first + j <= s :: operations[j].user != u
    ensures Read(Elements(BatchEntries(operations, first)), u, s) == NotFound
    ensures !HasEntry(Elements(BatchEntries(operations, first)), u, s)
  {
    ReadNothing(Elements(BatchEntries(operations, first)), u, s);
  }

  /**
   A write, as its caller sees it: right after it each user key reads as the last operation on it says, and a key with
   none as it did before; and no snapshot taken before it reads anything else.
   */
  lemma WriteIsRead(s: State, operations: seq<Operation>, s': State, u: UserKey)
    requires Structural(s) && Next(s, Write(operations), s')
    ensures forall i: nat | IsLastOn(operations, u, i) ::
              Read(Stored(s'), u, s'.lastSequence) == LeftBy(operations[i])
    ensures Untouched(operations, u) ==>
              Read(Stored(s'), u, s'.lastSequence) == Read(Stored(s), u, s.lastSequence)
    ensures forall n: nat | n <= s.lastSequence :: Read(Stored(s'), u, n) == Read(Stored(s), u, n)
  {
    var first := s.lastSequence + 1;
    var added := Elements(BatchEntries(operations, first));
    BatchIsFresh(operations, first);
    LayersUnique(s.mem, Immutable(s), ContentsFrom(s.version, 0), s.lastSequence);
    assert Stored(s') == added + Stored(s);
    forall i: nat | IsLastOn(operations, u, i)
      ensures Read(Stored(s'), u, s'.lastSequence) == LeftBy(operations[i])
    {
      LastIsNewest(operations, first, u, s'.lastSequence, i);
      LayeredRead(added, Stored(s), u, s'.lastSequence);
    }
    if Untouched(operations, u) {
      NoneIsNewest(operations, first, u, s'.lastSequence);
      LayeredRead(added, Stored(s), u, s'.lastSequence);
      LaterNumbersDoNotMatter(Stored(s), u, s.lastSequence, s'.lastSequence);
    }
    forall n: nat | n <= s.lastSequence
      ensures Read(Stored(s'), u, n) == Read(Stored(s), u, n)
    {
      NoneIsNewest(operations, first, u, n);
      LayeredRead(added, Stored(s), u, n);
    }
  }

  lemma LaterNumbersDoNotMatter(S: iset<Entry>, u: UserKey, last: nat, s: nat)
    requires UniqueSeqs(S) && BoundedBy(S, last) && last <= s
    ensures Read(S, u, s) == Read(S, u, last)
  {
    if e :| e in S && Qualifies(e, u, last) {
      var newest := NewestExists(S, u, last, e);
      ReadIs(S, u, last, newest);
      ReadIs(S, u, s, newest);
    } else {
      ReadNothing(S, u, last);
      ReadNothing(S, u, s);
    }
  }

  // ---------------------------------------------------------------- a whole run

  lemma BatchesJoin(a: seq<Operation>, b: seq<Operation>, first: nat)
    requires first + |a| + |b| <= MAX_SEQUENCE
    ensures Elements(BatchEntries(a + b, first))
         == Elements(BatchEntries(a, first)) + Elements(BatchEntries(b, first + |a|))
  {
    assert BatchEntries(a + b, first) == BatchEntries(a, first) + BatchEntries(b, first + |a|);
  }

  /** The history is the operations of all writes, numbered from 1 without a gap. */
  lemma {:induction false} HistoryIsWritten(states: seq<State>, steps: seq<Step>, i: nat)
    requires IsRun(states, steps) && i < |states|
    ensures |Written(steps[..i])| == states[i].lastSequence < MAX_SEQUENCE
    ensures states[i].history == Elements(BatchEntries(Written(steps[..i]), 1))
  {
    RunKeepsStructure(states, steps, i);
    if i > 0 {
      HistoryIsWritten(states, steps, i - 1);
      assert Next(states[i - 1], steps[i - 1], states[i]);
      assert steps[..i][..i - 1] == steps[..i - 1];
      if steps[i - 1].Write? {
        BatchesJoin(Written(steps[..i - 1]), steps[i - 1].operations, 1);
      } else {
        assert Written(steps[..i]) == Written(steps[..i - 1]);
      }
    } else {
      assert Elements(BatchEntries([], 1)) == iset{};
    }
  }

  /** Operations numbered from 1 read, at any snapshot, as the last of those up to it says. */
  lemma {:induction false} NumberedRead(operations: seq<Operation>, u: UserKey, n: nat)
    requires n <= |operations| < MAX_SEQUENCE
    ensures Read(Elements(BatchEntries(operations, 1)), u, n) == LastOn(operations[..n], u)
  {
    var some := operations[..n];
    if i: nat :| IsLastOn(some, u, i) {
      LastOnIs(some, u, i);
      LastIsNewest(operations, 1, u, n, i);
    } else {
      NothingIsLast(some, u, n);
      LastOnNone(some, u);
      NoneIsNewest(operations, 1, u, n);
    }
  }

  lemma {:induction false} NothingIsLast(operations: seq<Operation>, u: UserKey, n: nat)
    requires n <= |operations| && forall i: nat :: !IsLastOn(operations, u, i)
    ensures forall i | |operations| - n <= i < |operations| :: operations[i].user != u
  {
    if n > 0 {
      NothingIsLast(operations, u, n - 1);
      assert !IsLastOn(operations, u, |operations| - n);
    }
  }

  /**
   What was written by state i reads, at snapshot n, as the last operation on the user key among the first n that the
   run's writes held: sequence numbers count operations.
   */
  lemma HistoryReads(states: seq<State>, steps: seq<Step>, i: nat, u: UserKey, n: SequenceNumber)
    requires IsRun(states, steps) && i < |states| && n <= states[i].lastSequence
    ensures |Written(steps[..i])| == states[i].lastSequence
    ensures Read(states[i].history, u, n) == LastOn(WrittenBy(steps, i, n), u)
  {
    HistoryIsWritten(states, steps, i);
    NumberedRead(Written(steps[..i]), u, n);
  }

  // ---------------------------------------------------------------- snapshots that are held

  /** No snapshot that is held is older than what compactions keep to. */
  lemma HeldSnapshots(s: State, n: SequenceNumber)
    requires SnapshotsOk(s) && n in s.snapshots
    ensures OldestSnapshot(s) <= n <= s.lastSequence
  {
    var k :| 0 <= k < |s.snapshots| && s.snapshots[k] == n;
    assert k > 0 ==> s.snapshots[0] <= s.snapshots[k];
  }

  /**
   A snapshot that is taken and, in a later state of a guarded run, still held reads there what the operations written
   before it was taken say, the last one on each user key, whatever was written, flushed and compacted since.
   */
  lemma HeldSnapshotReads(states: seq<State>, steps: seq<Step>, i: nat, j: nat, u: UserKey)
    requires IsRun(states, steps) && i < |steps| && steps[i].TakeSnapshot? && i < j < |states|
    requires AllGuarded(states, steps, j) && states[i].lastSequence in states[j].snapshots
    ensures states[i].lastSequence in states[i + 1].snapshots
    ensures Read(Stored(states[j]), u, states[i].lastSequence) == LastOn(Written(steps[..i]), u)
  {
    var n := states[i].lastSequence;
    assert Next(states[i], steps[i], states[i + 1]);
    assert states[i + 1].snapshots[|states[i].snapshots|] == n;
    RunKeepsStructure(states, steps, j);
    HeldSnapshots(states[j], n);
    SnapshotsNeverChange(states, steps, i, j, u, n);
    HistoryReads(states, steps, i, u, n);
    var all := Written(steps[..i]);
    assert all[..n] == all;
  }
}
