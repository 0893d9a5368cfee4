/**
 Group commit: writers queue up, the one at the front writes for a prefix of the queue, and readers take snapshots all
 the while (DBImpl::Write and BuildBatchGroup in db_impl.cc).
 */
module GroupCommit {
  import opened WriteBatches
  import Slices

  /** A thread in Write: its batch, the batch's byte size, and whether it asked for a sync. */
  datatype Writer = Writer(id: nat, ops: seq<Op>, size: nat, sync: bool)

  function OpsOf(group: seq<Writer>): seq<Op> {
    if group == [] then [] else OpsOf(group[..|group| - 1]) + group[|group| - 1].ops
  }

  // ---------------------------------------------------------------- choosing the group

  const SMALL: nat := 0x2_0000

  function MaxSize(first: Writer): nat {
    if first.size <= SMALL then first.size + SMALL else 0x10_0000
  }

  function TotalSize(group: seq<Writer>): nat {
    if group == [] then 0 else TotalSize(group[..|group| - 1]) + group[|group| - 1].size
  }

  /** The first n writers may go together: no sync write behind a non-sync one, and not too much in all. */
  ghost predicate MayGroup(queue: seq<Writer>, n: nat)
    requires 1 <= n <= |queue|
  {
    && (forall i | 0 <= i < n :: queue[i].sync ==> queue[0].sync)
    && (n > 1 ==> TotalSize(queue[..n]) <= MaxSize(queue[0]))
  }

  /** The group is the longest prefix that may go together. */
  ghost predicate IsGroup(queue: seq<Writer>, n: nat) {
    && 1 <= n <= |queue|
    && MayGroup(queue, n)
    && (n < |queue| ==> !MayGroup(queue, n + 1))
  }

  lemma OneMoreWriter(queue: seq<Writer>, n: nat)
    requires n < |queue|
    ensures TotalSize(queue[..n + 1]) == TotalSize(queue[..n]) + queue[n].size
    ensures OpsOf(queue[..n + 1]) == OpsOf(queue[..n]) + queue[n].ops
  {
    assert queue[..n + 1][..n] == queue[..n];
  }

  /** BuildBatchGroup: how many writers, and their operations in one batch. */
  method BuildBatchGroup(queue: seq<Writer>) returns (n: nat, result: seq<Op>)
    requires queue != []
    ensures IsGroup(queue, n)
    ensures result == OpsOf(queue[..n])
  {
    var first := queue[0];
    result := first.ops;
    var size := first.size;
    var maxSize := 0x10_0000;
    if size <= SMALL {
      maxSize := size + SMALL;
    }
    n := 1;
    OneMoreWriter(queue, 0);
    while n < |queue|
      invariant 1 <= n <= |queue| && MayGroup(queue, n)
      invariant size == TotalSize(queue[..n]) && result == OpsOf(queue[..n])
    {
      var w := queue[n];
      OneMoreWriter(queue, n);
      if w.sync && !first.sync {
        break;
      }
      size := size + w.size;
      if size > maxSize {
        break;
      }
      result := result + w.ops;
      n := n + 1;
    }
  }

  // ---------------------------------------------------------------- the protocol

  datatype Outcome = Ok | Failed

  /** A finished group: who was in it, the first sequence number it was given, and what became of it and its record. */
  datatype Commit = Commit(group: seq<Writer>, first: nat, count: nat, outcome: Outcome, logged: bool, synced: bool)

  /** What the thread at the front of the queue is doing, outside the mutex. */
  datatype Phase =
    | Idle
    | Writing(n: nat, ops: seq<Op>, logged: bool, synced: bool, failed: bool, syncError: bool, inserted: nat)

  /**
   The shared state: the writer queue, the last sequence number that readers may see, the memtable, the log records,
   the results handed to finished writers, and whether a background error stops all writing. Three histories are kept
   for the statements: the order of arrival, the finished groups, and every sequence number readers could have seen.
   */
  datatype State = State(queue: seq<Writer>, phase: Phase, last: nat, mem: seq<(nat, Op)>, log: seq<(nat, seq<Op>)>,
                         results: map<nat, Outcome>, stopped: bool,
                         arrived: seq<Writer>, commits: seq<Commit>, seen: seq<nat>)

  datatype Step =
    | Arrive(w: Writer)
    | Begin(size: nat)
    | Refuse
    | Append(ok: bool)
    | Sync(ok: bool)
    | Insert
    | Finish

  ghost predicate Init(s: State) {
    s.phase == Idle && s.queue == [] && s.mem == [] && s.log == [] && s.results == map[] && !s.stopped
    && s.arrived == [] && s.commits == [] && s.seen == [s.last]
  }

  function Ids(ws: seq<Writer>): set<nat> {
    set w | w in ws :: w.id
  }

  function GiveResults(results: map<nat, Outcome>, group: seq<Writer>, outcome: Outcome): map<nat, Outcome> {
    map id | id in results.Keys + Ids(group) :: if id in Ids(group) then outcome else results[id]
  }

  /** The group leaves the queue, all its writers get the leader's status, and the sequence number moves past it. */
  function Finished(s: State, c: Commit): State
    requires |c.group| <= |s.queue|
  {
    s.(queue := s.queue[|c.group|..], phase := Idle, last := s.last + c.count,
       results := GiveResults(s.results, c.group, c.outcome),
       commits := s.commits + [c], seen := s.seen + [s.last + c.count])
  }

  ghost predicate Next(s: State, step: Step, s': State) {
    match step
    case Arrive(w) =>
      w.id !in Ids(s.arrived) && s' == s.(queue := s.queue + [w], arrived := s.arrived + [w])
    case Begin(n) =>
      && s.phase == Idle && s.queue != [] && !s.stopped && IsGroup(s.queue, n)
      && s' == s.(phase := Writing(n, OpsOf(s.queue[..n]), false, false, false, false, 0))
    case Refuse =>
      // MakeRoomForWrite fails: the writer at the front returns the error, and nobody else.
      s.phase == Idle && s.queue != [] && s' == Finished(s, Commit(s.queue[..1], s.last + 1, 0, Failed, false, false))
    case Append(ok) =>
      && s.phase.Writing? && !s.phase.logged && !s.phase.failed
      && s' == if ok then s.(phase := s.phase.(logged := true), log := s.log + [(s.last + 1, s.phase.ops)])
               else s.(phase := s.phase.(failed := true))
    case Sync(ok) =>
      && s.phase.Writing? && s.phase.logged && !s.phase.synced && !s.phase.failed && s.queue != [] && s.queue[0].sync
      && s' == s.(phase := if ok then s.phase.(synced := true) else s.phase.(failed := true, syncError := true))
    case Insert =>
      && s.phase.Writing? && s.phase.logged && !s.phase.failed && s.queue != [] && (s.queue[0].sync ==> s.phase.synced)
      && s.phase.inserted < |s.phase.ops|
      && s' == s.(mem := s.mem + [(s.last + 1 + s.phase.inserted, s.phase.ops[s.phase.inserted])],
                  phase := s.phase.(inserted := s.phase.inserted + 1))
    case Finish =>
      && s.phase.Writing? && s.phase.n <= |s.queue| && s.queue != []
      && (s.phase.failed
          || (s.phase.logged && s.phase.inserted == |s.phase.ops| && (s.queue[0].sync ==> s.phase.synced)))
      && s' == Finished(s, Commit(s.queue[..s.phase.n], s.last + 1, |s.phase.ops|,
                                  if s.phase.failed then Failed else Ok, s.phase.logged, s.phase.synced))
               .(stopped := s.stopped || s.phase.syncError)
  }

  // ---------------------------------------------------------------- the invariant

  /** The members of the finished groups, group by group. */
  function Members(commits: seq<Commit>): seq<Writer> {
    if commits == [] then [] else Members(commits[..|commits| - 1]) + commits[|commits| - 1].group
  }

  /** What a group leaves in the memtable: all its operations, numbered from its first, or nothing at all. */
  function Applied(c: Commit): seq<(nat, Op)> {
    if c.outcome == Ok then Numbered(c.first, OpsOf(c.group)) else []
  }

  function AllApplied(commits: seq<Commit>): seq<(nat, Op)> {
    if commits == [] then [] else AllApplied(commits[..|commits| - 1]) + Applied(commits[|commits| - 1])
  }

  ghost predicate DistinctIds(ws: seq<Writer>) {
    forall i, j | 0 <= i < j < |ws| :: ws[i].id != ws[j].id
  }

  /** Sequence numbers go to the groups without gaps or overlaps: group k gets those between boundaries k and k + 1. */
  ghost predicate Contiguous(commits: seq<Commit>, seen: seq<nat>) {
    && |seen| == |commits| + 1
    && forall k {:trigger commits[k]} | 0 <= k < |commits| ::
         && commits[k].first == seen[k] + 1 && seen[k + 1] == seen[k] + commits[k].count
         && (commits[k].outcome == Ok ==> commits[k].count == |OpsOf(commits[k].group)|)
  }

  /** A sync write is led by a sync write, and an Ok from a sync leader means that the log was synced. */
  ghost predicate SyncKept(c: Commit) {
    && c.group != []
    && (forall w | w in c.group && w.sync :: c.group[0].sync)
    && (c.outcome == Ok && c.group[0].sync ==> c.synced)
  }

  /** Every finished writer has the outcome of its group. */
  ghost predicate ResultsFit(results: map<nat, Outcome>, commits: seq<Commit>) {
    && results.Keys == Ids(Members(commits))
    && forall c, w | c in commits && w in c.group :: w.id in results && results[w.id] == c.outcome
  }

  ghost predicate PhaseOk(s: State) {
    s.phase.Writing? ==>
      && 1 <= s.phase.n <= |s.queue|
      && s.phase.ops == OpsOf(s.queue[..s.phase.n])
      && (forall i | 0 <= i < s.phase.n :: s.queue[i].sync ==> s.queue[0].sync)
      && s.phase.inserted <= |s.phase.ops|
      && (s.phase.failed || !s.phase.logged ==> s.phase.inserted == 0)
      && (s.phase.inserted > 0 && s.queue[0].sync ==> s.phase.synced)
  }

  function InProgress(s: State): seq<(nat, Op)>
    requires s.phase.Writing? ==> s.phase.inserted <= |s.phase.ops|
  {
    if s.phase.Writing? then Numbered(s.last + 1, s.phase.ops[..s.phase.inserted]) else []
  }

  ghost predicate Invariant(s: State) {
    && PhaseOk(s)
    && s.arrived == Members(s.commits) + s.queue
    && DistinctIds(s.arrived)
    && Contiguous(s.commits, s.seen) && s.last == s.seen[|s.commits|]
    && s.mem == AllApplied(s.commits) + InProgress(s)
    && (forall c | c in s.commits :: SyncKept(c))
    && ResultsFit(s.results, s.commits)
  }

  lemma FinishKeepsResults(s: State, c: Commit)
    requires ResultsFit(s.results, s.commits) && s.arrived == Members(s.commits) + s.queue && DistinctIds(s.arrived)
    requires |c.group| <= |s.queue| && c.group == s.queue[..|c.group|]
    ensures ResultsFit(GiveResults(s.results, c.group, c.outcome), s.commits + [c])
    ensures s.arrived == Members(s.commits + [c]) + s.queue[|c.group|..]
  {
    OneMoreGroup(s.commits, c);
    assert s.queue == c.group + s.queue[|c.group|..];
    Slices.Associates(Members(s.commits), c.group, s.queue[|c.group|..]);
    forall d, w | d in s.commits && w in d.group
      ensures w.id !in Ids(c.group)
    {
      if w.id in Ids(c.group) {
        var x :| x in c.group && x.id == w.id;
        MemberOf(s.commits, d, w);
        NotInBoth(Members(s.commits), s.queue, w, x);
      }
    }
    ResultsOfOneMore(s.results, s.commits, c);
  }

  lemma OneMoreGroup(commits: seq<Commit>, c: Commit)
    ensures Members(commits + [c]) == Members(commits) + c.group
    ensures Ids(Members(commits + [c])) == Ids(Members(commits)) + Ids(c.group)
  {
    var all := commits + [c];
    assert all[..|all| - 1] == commits;
  }

  lemma ResultsOfOneMore(results: map<nat, Outcome>, commits: seq<Commit>, c: Commit)
    requires ResultsFit(results, commits)
    requires forall d, w | d in commits && w in d.group :: w.id !in Ids(c.group)
    ensures ResultsFit(GiveResults(results, c.group, c.outcome), commits + [c])
  {
    OneMoreGroup(commits, c);
    var after, all := GiveResults(results, c.group, c.outcome), commits + [c];
    forall d, w | d in all && w in d.group
      ensures w.id in after && after[w.id] == d.outcome
    {
      if d in commits {
        assert w.id in results;
      } else {
        assert w.id in Ids(c.group);
      }
    }
  }

  lemma {:induction false} MemberOf(commits: seq<Commit>, c: Commit, w: Writer)
    requires c in commits && w in c.group
    ensures w in Members(commits)
  {
    var init := commits[..|commits| - 1];
    if c in init {
      MemberOf(init, c, w);
    }
  }

  lemma NotInBoth(a: seq<Writer>, b: seq<Writer>, w: Writer, x: Writer)
    requires DistinctIds(a + b) && w in a && x in b
    ensures w.id != x.id
  {
    var i :| 0 <= i < |a| && a[i] == w;
    var j :| 0 <= j < |b| && b[j] == x;
    assert (a + b)[i] == w && (a + b)[|a| + j] == x;
  }

  lemma CommitKeepsRest(s: State, c: Commit)
    requires Contiguous(s.commits, s.seen) && s.last == s.seen[|s.commits|]
    requires c.first == s.last + 1 && (c.outcome == Ok ==> c.count == |OpsOf(c.group)|)
    ensures Contiguous(s.commits + [c], s.seen + [s.last + c.count])
    ensures AllApplied(s.commits + [c]) == AllApplied(s.commits) + Applied(c)
  {
    var all := s.commits + [c];
    assert all[..|all| - 1] == s.commits;
  }

  lemma SyncKeptByOneMore(commits: seq<Commit>, c: Commit)
    requires (forall d | d in commits :: SyncKept(d)) && SyncKept(c)
    ensures forall d | d in commits + [c] :: SyncKept(d)
  {
  }

  lemma FinishedKeepsInvariant(s: State, c: Commit, stopped: bool)
    requires Invariant(s)
    requires |c.group| <= |s.queue| && c.group == s.queue[..|c.group|]
    requires c.first == s.last + 1 && (c.outcome == Ok ==> c.count == |OpsOf(c.group)|)
    requires SyncKept(c) && InProgress(s) == Applied(c)
    ensures Invariant(Finished(s, c).(stopped := stopped))
  {
    var t := Finished(s, c).(stopped := stopped);
    assert ResultsFit(t.results, t.commits) && t.arrived == Members(t.commits) + t.queue by {
      FinishKeepsResults(s, c);
    }
    assert Contiguous(t.commits, t.seen) && t.mem == AllApplied(t.commits) by { CommitKeepsRest(s, c); }
    SyncKeptByOneMore(s.commits, c);
    assert AllApplied(t.commits) + [] == AllApplied(t.commits);
  }

  lemma ArriveKeepsInvariant(s: State, w: Writer)
    requires Invariant(s) && w.id !in Ids(s.arrived)
    ensures Invariant(s.(queue := s.queue + [w], arrived := s.arrived + [w]))
  {
    var t := s.(queue := s.queue + [w], arrived := s.arrived + [w]);
    forall i, j | 0 <= i < j < |t.arrived|
      ensures t.arrived[i].id != t.arrived[j].id
    {
      if j == |s.arrived| {
        assert s.arrived[i].id in Ids(s.arrived);
      }
    }
    if s.phase.Writing? {
      assert t.queue[..s.phase.n] == s.queue[..s.phase.n];
    }
  }

  lemma InsertKeepsInvariant(s: State, s': State)
    requires Invariant(s) && Next(s, Insert, s')
    ensures Invariant(s')
  {
    var one: seq<(nat, Op)> := [(s.last + 1 + s.phase.inserted, s.phase.ops[s.phase.inserted])];
    assert InProgress(s') == InProgress(s) + one by { NumberedGrows(s.last + 1, s.phase.ops, s.phase.inserted); }
    assert s'.mem == AllApplied(s'.commits) + InProgress(s') by {
      Slices.Associates(AllApplied(s.commits), InProgress(s), one);
    }
    assert PhaseOk(s');
  }

  lemma FinishKeepsInvariant(s: State, s': State)
    requires Invariant(s) && Next(s, Finish, s')
    ensures Invariant(s')
  {
    var outcome := if s.phase.failed then Failed else Ok;
    var c := Commit(s.queue[..s.phase.n], s.last + 1, |s.phase.ops|, outcome, s.phase.logged, s.phase.synced);
    assert s.phase.ops[..|s.phase.ops|] == s.phase.ops;
    FinishedKeepsInvariant(s, c, s.stopped || s.phase.syncError);
  }

  lemma QuietPhase(s: State, phase: Phase)
    requires Invariant(s) && PhaseOk(s.(phase := phase)) && InProgress(s.(phase := phase)) == InProgress(s)
    ensures Invariant(s.(phase := phase))
  {
  }

  lemma BeginKeepsInvariant(s: State, n: nat, s': State)
    requires Invariant(s) && Next(s, Begin(n), s')
    ensures Invariant(s')
  {
    QuietPhase(s, s'.phase);
  }

  lemma AppendKeepsInvariant(s: State, ok: bool, s': State)
    requires Invariant(s) && Next(s, Append(ok), s')
    ensures Invariant(s')
  {
    QuietPhase(s, s'.phase);
  }

  lemma SyncKeepsInvariant(s: State, ok: bool, s': State)
    requires Invariant(s) && Next(s, Sync(ok), s')
    ensures Invariant(s')
  {
    QuietPhase(s, s'.phase);
  }

  lemma StepKeepsInvariant(s: State, step: Step, s': State)
    requires Invariant(s) && Next(s, step, s')
    ensures Invariant(s')
  {
    match step
    case Arrive(w) => ArriveKeepsInvariant(s, w);
    case Begin(n) => BeginKeepsInvariant(s, n, s');
    case Refuse => FinishedKeepsInvariant(s, Commit(s.queue[..1], s.last + 1, 0, Failed, false, false), s.stopped);
    case Append(ok) => AppendKeepsInvariant(s, ok, s');
    case Sync(ok) => SyncKeepsInvariant(s, ok, s');
    case Insert => InsertKeepsInvariant(s, s');
    case Finish => FinishKeepsInvariant(s, s');
  }

  // ---------------------------------------------------------------- runs

  ghost predicate IsRun(states: seq<State>, steps: seq<Step>) {
    && |states| == |steps| + 1
    && Init(states[0])
    && forall i {:trigger steps[i]} | 0 <= i < |steps| :: Next(states[i], steps[i], states[i + 1])
  }

  lemma StartsInvariant(s: State)
    requires Init(s)
    ensures Invariant(s)
  {
    assert AllApplied([]) + [] == [] && Members([]) + [] == [];
  }

  lemma {:induction false} RunKeepsInvariant(states: seq<State>, steps: seq<Step>, i: nat)
    requires IsRun(states, steps) && i < |states|
    ensures Invariant(states[i])
  {
    if i == 0 {
      StartsInvariant(states[0]);
    } else {
      RunKeepsInvariant(states, steps, i - 1);
      assert Next(states[i - 1], steps[i - 1], states[i]);
      StepKeepsInvariant(states[i - 1], steps[i - 1], states[i]);
    }
  }

  /** What a reader sees that took its snapshot at this sequence number. */
  function Visible(mem: seq<(nat, Op)>, snapshot: nat): seq<(nat, Op)> {
    if mem == [] then []
    else Visible(mem[..|mem| - 1], snapshot) + if mem[|mem| - 1].0 <= snapshot then [mem[|mem| - 1]] else []
  }

  lemma {:induction false} AllVisible(a: seq<(nat, Op)>, snapshot: nat)
    requires forall e | e in a :: e.0 <= snapshot
    ensures Visible(a, snapshot) == a
  {
    if a != [] {
      var init, last := a[..|a| - 1], a[|a| - 1];
      assert a == init + [last] && last in a;
      AllVisible(init, snapshot);
    }
  }

  lemma {:induction false} VisibleSplits(a: seq<(nat, Op)>, b: seq<(nat, Op)>, snapshot: nat)
    requires forall e | e in a :: e.0 <= snapshot
    requires forall e | e in b :: e.0 > snapshot
    ensures Visible(a + b, snapshot) == a
  {
    var all := a + b;
    if b == [] {
      assert all == a;
      AllVisible(a, snapshot);
    } else {
      assert all[..|all| - 1] == a + b[..|b| - 1];
      VisibleSplits(a, b[..|b| - 1], snapshot);
      assert all[|all| - 1] in b;
    }
  }

  /** A group's numbers lie between its boundaries. */
  lemma {:induction false} AppliedBounds(commits: seq<Commit>, seen: seq<nat>, k: nat)
    requires Contiguous(commits, seen) && k <= |commits|
    ensures forall e | e in AllApplied(commits[..k]) :: e.0 <= seen[k]
  {
    if k > 0 {
      AppliedBounds(commits, seen, k - 1);
      assert commits[..k][..k - 1] == commits[..k - 1] && commits[..k][k - 1] == commits[k - 1];
    }
  }

  /** The memtable splits at every boundary. */
  lemma {:induction false} AppliedSplits(commits: seq<Commit>, seen: seq<nat>, k: nat) returns (rest: seq<(nat, Op)>)
    requires Contiguous(commits, seen) && k <= |commits|
    ensures AllApplied(commits) == AllApplied(commits[..k]) + rest
    ensures forall e | e in rest :: seen[k] < e.0
    ensures seen[k] <= seen[|commits|]
    decreases |commits|
  {
    if k == |commits| {
      assert commits[..k] == commits;
      rest := [];
    } else {
      var init, last := commits[..|commits| - 1], commits[|commits| - 1];
      ContiguousPrefix(commits, seen);
      assert init[..k] == commits[..k];
      var front := AppliedSplits(init, seen[..|commits|], k);
      rest := front + Applied(last);
      Slices.Associates(AllApplied(commits[..k]), front, Applied(last));
    }
  }

  lemma ContiguousPrefix(commits: seq<Commit>, seen: seq<nat>)
    requires Contiguous(commits, seen) && commits != []
    ensures Contiguous(commits[..|commits| - 1], seen[..|commits|])
    ensures commits[|commits| - 1].first == seen[|commits| - 1] + 1 && seen[|commits| - 1] <= seen[|commits|]
  {
    var init := commits[..|commits| - 1];
    assert forall j | 0 <= j < |init| :: init[j] == commits[j];
    assert commits[|commits| - 1].first == seen[|commits| - 1] + 1;
  }

  /**
   Atomic visibility: in every reachable state, a reader whose snapshot is the k-th number that LastSequence ever had
   sees exactly the groups that had finished by then with Ok, whole and in order. What other groups write meanwhile,
   before or after, it does not see.
   */
  lemma SnapshotsSeeWholeGroups(s: State, k: nat)
    requires Invariant(s) && k < |s.seen|
    ensures Visible(s.mem, s.seen[k]) == AllApplied(s.commits[..k])
  {
    assert forall e | e in InProgress(s) :: s.last < e.0;
    GroupsAreVisible(s.commits, s.seen, InProgress(s), k);
  }

  /** Whatever is numbered past the last boundary is past every boundary. */
  lemma GroupsAreVisible(commits: seq<Commit>, seen: seq<nat>, more: seq<(nat, Op)>, k: nat)
    requires Contiguous(commits, seen) && k < |seen| && forall e | e in more :: seen[|commits|] < e.0
    ensures Visible(AllApplied(commits) + more, seen[k]) == AllApplied(commits[..k])
  {
    var rest := AppliedSplits(commits, seen, k);
    AppliedBounds(commits, seen, k);
    Slices.Associates(AllApplied(commits[..k]), rest, more);
    VisibleSplits(AllApplied(commits[..k]), rest + more, seen[k]);
  }

  lemma {:induction false} HistoriesGrow(states: seq<State>, steps: seq<Step>, i: nat, j: nat)
    requires IsRun(states, steps) && i <= j < |states|
    ensures states[i].commits <= states[j].commits && states[i].seen <= states[j].seen
  {
    if i < j {
      HistoriesGrow(states, steps, i, j - 1);
      assert Next(states[j - 1], steps[j - 1], states[j]);
    }
  }

  /** A snapshot shows the same for as long as it is kept. */
  lemma SnapshotsNeverChange(states: seq<State>, steps: seq<Step>, i: nat, j: nat)
    requires IsRun(states, steps) && i <= j < |states|
    ensures Visible(states[j].mem, states[i].last) == Visible(states[i].mem, states[i].last)
  {
    RunKeepsInvariant(states, steps, i);
    RunKeepsInvariant(states, steps, j);
    HistoriesGrow(states, steps, i, j);
    var k := |states[i].commits|;
    SnapshotsSeeWholeGroups(states[i], k);
    SnapshotsSeeWholeGroups(states[j], k);
    assert states[j].commits[..k] == states[i].commits[..k];
  }

  /** A writer that asked for a sync and was told Ok has its group's record synced, by a leader that asked too. */
  lemma SyncWritesAreSynced(states: seq<State>, steps: seq<Step>, i: nat, c: Commit, w: Writer)
    requires IsRun(states, steps) && i < |states|
    requires c in states[i].commits && w in c.group && w.sync
    ensures c.group[0].sync
    ensures w.id in states[i].results && (states[i].results[w.id] == Ok ==> c.synced)
  {
    RunKeepsInvariant(states, steps, i);
    assert SyncKept(c);
  }

  /** Every writer that has arrived is in the queue or in exactly one finished group, in order of arrival. */
  lemma WritersFinishInOrder(states: seq<State>, steps: seq<Step>, i: nat)
    requires IsRun(states, steps) && i < |states|
    ensures states[i].arrived == Members(states[i].commits) + states[i].queue
    ensures DistinctIds(states[i].arrived)
    ensures states[i].results.Keys == Ids(Members(states[i].commits))
    ensures Contiguous(states[i].commits, states[i].seen)
    ensures states[i].phase == Idle ==> states[i].mem == AllApplied(states[i].commits)
  {
    RunKeepsInvariant(states, steps, i);
  }
}
