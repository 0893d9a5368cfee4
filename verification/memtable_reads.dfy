/**
 What group commit leaves for readers: in the memtable that the groups fill, each key reads, at every snapshot, as the
 last operation on it among the groups that had been committed by then (memtable.cc over write_batch.cc).
 */
module MemTableReads {
  import opened GroupCommit
  import opened Keys
  import opened Reads
  import opened WriteBatches
  import Comparator

  type Pair = (nat, Op)

  // ---------------------------------------------------------------- the memtable as entries

  function UserOf(key: Bytes): UserKey {
    Comparator.Rank(key)
  }

  /** MemTable::Add. */
  function EntryOf(p: Pair): Entry
    requires p.0 <= MAX_SEQUENCE
  {
    match p.1
    case Put(key, value) => Entry(InternalKey(UserOf(key), p.0, TypeValue), value)
    case Delete(key) => Entry(InternalKey(UserOf(key), p.0, TypeDeletion), [])
  }

  ghost predicate Numberable(mem: seq<Pair>) {
    forall p | p in mem :: p.0 <= MAX_SEQUENCE
  }

  ghost function Entries(mem: seq<Pair>): iset<Entry>
    requires Numberable(mem)
  {
    iset p | p in mem :: EntryOf(p)
  }

  // ---------------------------------------------------------------- what was asked for

  function LeftBy(op: Op): Answer {
    match op
    case Put(_, value) => Found(value)
    case Delete(_) => NotFound
  }

  /** The key after these operations in turn. */
  function LastOn(ops: seq<Op>, key: Bytes): Answer {
    if ops == [] then NotFound
    else
      var last := ops[|ops| - 1];
      if last.key == key then LeftBy(last) else LastOn(ops[..|ops| - 1], key)
  }

  /** The operations of the groups that were told Ok, in the order of the queue. */
  function Acknowledged(commits: seq<Commit>): seq<Op> {
    if commits == [] then []
    else
      var c := commits[|commits| - 1];
      Acknowledged(commits[..|commits| - 1]) + if c.outcome == Ok then OpsOf(c.group) else []
  }

  // ---------------------------------------------------------------- reading a numbered list

  function OpsIn(pairs: seq<Pair>): seq<Op> {
    seq(|pairs|, i requires 0 <= i < |pairs| => pairs[i].1)
  }

  ghost predicate Ascending(mem: seq<Pair>) {
    forall i, j | 0 <= i < j < |mem| :: mem[i].0 < mem[j].0
  }

  lemma SameUser(a: Bytes, b: Bytes)
    ensures UserOf(a) == UserOf(b) <==> a == b
  {
    Comparator.RankKeepsOrder(a, b);
    Comparator.CompareIsOrder(a, b, a);
  }

  lemma EntriesAreUnique(mem: seq<Pair>)
    requires Ascending(mem) && Numberable(mem)
    ensures UniqueSeqs(Entries(mem))
  {
    forall a, b | a in Entries(mem) && b in Entries(mem) && a.key.sequence == b.key.sequence
      ensures a == b
    {
      var p :| p in mem && EntryOf(p) == a;
      var q :| q in mem && EntryOf(q) == b;
      var i :| 0 <= i < |mem| && mem[i] == p;
      var j :| 0 <= j < |mem| && mem[j] == q;
      assert !(i < j) && !(j < i);
    }
  }

  /** The last pair's entry is newer than all others. */
  lemma LastIsOnTop(init: seq<Pair>, last: Pair)
    requires Ascending(init + [last]) && Numberable(init + [last])
    ensures Numberable(init) && Ascending(init)
    ensures Entries(init + [last]) == iset{EntryOf(last)} + Entries(init)
    ensures NewerThan(iset{EntryOf(last)}, Entries(init))
  {
    var mem := init + [last];
    assert forall p :: p in mem <==> p in init || p == last;
    forall i, j | 0 <= i < j < |init|
      ensures init[i].0 < init[j].0
    {
      assert mem[i].0 < mem[j].0;
    }
    forall p | p in init
      ensures p.0 < last.0
    {
      var i :| 0 <= i < |init| && init[i] == p;
      assert mem[i].0 < mem[|init|].0;
    }
  }

  /** One layer of one entry. */
  lemma OneEntryReads(p: Pair, key: Bytes, s: nat)
    requires p.0 <= MAX_SEQUENCE
    ensures var A := iset{EntryOf(p)};
            && UniqueSeqs(A)
            && (HasEntry(A, UserOf(key), s) <==> p.0 <= s && p.1.key == key)
            && (HasEntry(A, UserOf(key), s) ==> Read(A, UserOf(key), s) == LeftBy(p.1))
  {
    var A := iset{EntryOf(p)};
    SameUser(p.1.key, key);
    if p.0 <= s && p.1.key == key {
      assert IsNewest(A, UserOf(key), s, EntryOf(p));
      ReadIs(A, UserOf(key), s, EntryOf(p));
    }
  }

  lemma LastEntryDecides(init: seq<Pair>, last: Pair, key: Bytes, s: nat)
    requires Ascending(init + [last]) && Numberable(init + [last])
    ensures Numberable(init) && Ascending(init)
    ensures Read(Entries(init + [last]), UserOf(key), s)
         == if last.0 <= s && last.1.key == key then LeftBy(last.1) else Read(Entries(init), UserOf(key), s)
  {
    LastIsOnTop(init, last);
    EntriesAreUnique(init);
    OneEntryReads(last, key, s);
    LayeredRead(iset{EntryOf(last)}, Entries(init), UserOf(key), s);
  }

  /** A memtable whose numbers ascend reads as the operations that a snapshot sees say. */
  lemma {:induction false} AscendingRead(mem: seq<Pair>, key: Bytes, s: nat)
    requires Ascending(mem) && Numberable(mem)
    ensures Read(Entries(mem), UserOf(key), s) == LastOn(OpsIn(Visible(mem, s)), key)
  {
    if mem == [] {
      ReadNothing(Entries(mem), UserOf(key), s);
    } else {
      var init, last := mem[..|mem| - 1], mem[|mem| - 1];
      assert mem == init + [last];
      LastEntryDecides(init, last, key, s);
      AscendingRead(init, key, s);
      OneMoreVisible(init, last, key, s);
    }
  }

  lemma OneMoreVisible(init: seq<Pair>, last: Pair, key: Bytes, s: nat)
    ensures LastOn(OpsIn(Visible(init + [last], s)), key)
         == if last.0 <= s && last.1.key == key then LeftBy(last.1) else LastOn(OpsIn(Visible(init, s)), key)
  {
    var mem := init + [last];
    assert mem[..|mem| - 1] == init && mem[|mem| - 1] == last;
    if last.0 <= s {
      var before := OpsIn(Visible(init, s));
      assert OpsIn(Visible(mem, s)) == before + [last.1];
      assert (before + [last.1])[..|before|] == before;
    } else {
      assert Visible(mem, s) == Visible(init, s);
    }
  }

  // ---------------------------------------------------------------- the memtable of group commit

  lemma JoinAscends(a: seq<Pair>, b: seq<Pair>, n: nat)
    requires Ascending(a) && Ascending(b)
    requires (forall e | e in a :: e.0 <= n) && forall e | e in b :: n < e.0
    ensures Ascending(a + b)
  {
    forall i, j | 0 <= i < j < |a + b|
      ensures (a + b)[i].0 < (a + b)[j].0
    {
      assert i < |a| ==> (a + b)[i] in a;
      assert j >= |a| ==> (a + b)[j] in b;
    }
  }

  lemma {:induction false} AppliedAscends(commits: seq<Commit>, seen: seq<nat>)
    requires Contiguous(commits, seen)
    ensures Ascending(AllApplied(commits))
    decreases |commits|
  {
    if commits != [] {
      var k := |commits| - 1;
      ContiguousPrefix(commits, seen);
      AppliedAscends(commits[..k], seen[..|commits|]);
      AppliedBounds(commits, seen, k);
      JoinAscends(AllApplied(commits[..k]), Applied(commits[k]), seen[k]);
    }
  }

  lemma MemAscends(s: State)
    requires Invariant(s)
    ensures Ascending(s.mem)
  {
    AppliedAscends(s.commits, s.seen);
    AppliedBounds(s.commits, s.seen, |s.commits|);
    assert s.commits[..|s.commits|] == s.commits;
    JoinAscends(AllApplied(s.commits), InProgress(s), s.last);
  }

  lemma {:induction false} AppliedIsAcknowledged(commits: seq<Commit>)
    ensures OpsIn(AllApplied(commits)) == Acknowledged(commits)
  {
    if commits != [] {
      var init, c := commits[..|commits| - 1], commits[|commits| - 1];
      AppliedIsAcknowledged(init);
      assert OpsIn(AllApplied(init) + Applied(c)) == OpsIn(AllApplied(init)) + OpsIn(Applied(c));
      assert OpsIn(Applied(c)) == if c.outcome == Ok then OpsOf(c.group) else [];
    }
  }

  /**
   Reading after writing: a snapshot taken in state i reads each key, then and in every later state, as the last
   operation on it among the groups that had been acknowledged by state i.
   */
  lemma ReadersSeeLastAcknowledged(states: seq<State>, steps: seq<Step>, i: nat, j: nat, key: Bytes)
    requires IsRun(states, steps) && i <= j < |states| && Numberable(states[j].mem)
    ensures Read(Entries(states[j].mem), UserOf(key), states[i].last)
         == LastOn(Acknowledged(states[i].commits), key)
  {
    RunKeepsInvariant(states, steps, i);
    RunKeepsInvariant(states, steps, j);
    MemAscends(states[j]);
    AscendingRead(states[j].mem, key, states[i].last);
    SnapshotsNeverChange(states, steps, i, j);
    var commits := states[i].commits;
    SnapshotsSeeWholeGroups(states[i], |commits|);
    assert commits[..|commits|] == commits;
    AppliedIsAcknowledged(commits);
  }
}
