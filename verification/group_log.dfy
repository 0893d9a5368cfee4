/**
 The log that group commit writes: it holds the records of the committed groups in order, so that replaying it gives the
 memtable back (DBImpl::Write in db_impl.cc).
 */
module GroupLogs {
  import opened GroupCommit
  import opened WriteBatches

  // ---------------------------------------------------------------- what the log holds

  type LogRecord = (nat, seq<Op>)

  function RecordOf(c: Commit): LogRecord {
    (c.first, OpsOf(c.group))
  }

  /** The records of the groups that got as far as the log. */
  function Logged(commits: seq<Commit>): seq<LogRecord> {
    if commits == [] then []
    else Logged(commits[..|commits| - 1]) + LoggedOne(commits[|commits| - 1])
  }

  function LoggedOne(c: Commit): seq<LogRecord> {
    if c.logged then [RecordOf(c)] else []
  }

  function LoggedNow(s: State): seq<LogRecord> {
    if s.phase.Writing? && s.phase.logged then [(s.last + 1, s.phase.ops)] else []
  }

  /** Logged without success: the sync failed. */
  predicate SyncFailed(c: Commit) {
    c.logged && c.outcome == Failed
  }

  /** Whoever got Ok is in the log; after a failed sync nothing is logged any more. */
  ghost predicate CommitsLogged(commits: seq<Commit>) {
    && (forall i | 0 <= i < |commits| :: commits[i].outcome == Ok ==> commits[i].logged)
    && forall i, j | 0 <= i < j < |commits| && SyncFailed(commits[i]) :: !commits[j].logged
  }

  /** Exactly the groups that were committed so far, in order, plus at most the one in progress. */
  ghost predicate LogOk(s: State) {
    && s.log == Logged(s.commits) + LoggedNow(s)
    && CommitsLogged(s.commits)
    && (!s.stopped ==> forall c | c in s.commits :: !SyncFailed(c))
    && (s.phase.Writing? ==> !s.stopped && (s.phase.logged && s.phase.failed ==> s.phase.syncError))
    && (s.phase.Writing? ==> s.phase.n <= |s.queue| && s.phase.ops == OpsOf(s.queue[..s.phase.n]))
  }

  lemma OneMoreLogged(commits: seq<Commit>, c: Commit)
    requires CommitsLogged(commits) && (c.outcome == Ok ==> c.logged)
    requires c.logged ==> forall d | d in commits :: !SyncFailed(d)
    ensures CommitsLogged(commits + [c]) && Logged(commits + [c]) == Logged(commits) + LoggedOne(c)
  {
    var all := commits + [c];
    assert all[..|all| - 1] == commits;
    forall i, j | 0 <= i < j < |all| && SyncFailed(all[i])
      ensures !all[j].logged
    {
      assert all[i] == commits[i] && commits[i] in commits;
    }
  }

  lemma FinishKeepsLog(s: State, s': State)
    requires LogOk(s) && Next(s, Finish, s')
    ensures LogOk(s')
  {
    var c := s'.commits[|s.commits|];
    assert s'.commits == s.commits + [c];
    OneMoreLogged(s.commits, c);
    assert LoggedNow(s) == LoggedOne(c);
    assert Logged(s'.commits) + [] == Logged(s'.commits);
  }

  lemma RefuseKeepsLog(s: State, s': State)
    requires LogOk(s) && Next(s, Refuse, s')
    ensures LogOk(s')
  {
    var c := s'.commits[|s.commits|];
    assert s'.commits == s.commits + [c];
    OneMoreLogged(s.commits, c);
    assert Logged(s.commits) + [] == Logged(s.commits);
  }

  lemma AppendKeepsLog(s: State, ok: bool, s': State)
    requires LogOk(s) && Next(s, Append(ok), s')
    ensures LogOk(s')
  {
    assert Logged(s.commits) + [] == Logged(s.commits);
  }

  lemma ArriveKeepsLog(s: State, w: Writer, s': State)
    requires LogOk(s) && Next(s, Arrive(w), s')
    ensures LogOk(s')
  {
    if s.phase.Writing? {
      assert s'.queue[..s.phase.n] == s.queue[..s.phase.n];
    }
  }

  lemma StepKeepsLog(s: State, step: Step, s': State)
    requires LogOk(s) && Next(s, step, s')
    ensures LogOk(s')
  {
    match step
    case Arrive(w) => ArriveKeepsLog(s, w, s');
    case Begin(n) =>
    case Refuse => RefuseKeepsLog(s, s');
    case Append(ok) => AppendKeepsLog(s, ok, s');
    case Sync(ok) =>
    case Insert =>
    case Finish => FinishKeepsLog(s, s');
  }

  lemma StartsLog(s: State)
    requires Init(s)
    ensures LogOk(s)
  {
  }

  /** In every state of every run the log holds the committed groups, and at most one more. */
  lemma {:induction false} RunKeepsLog(states: seq<State>, steps: seq<Step>, i: nat)
    requires IsRun(states, steps) && i < |states|
    ensures LogOk(states[i])
  {
    if i == 0 {
      StartsLog(states[0]);
    } else {
      RunKeepsLog(states, steps, i - 1);
      assert Next(states[i - 1], steps[i - 1], states[i]);
      StepKeepsLog(states[i - 1], steps[i - 1], states[i]);
    }
  }

  // ---------------------------------------------------------------- replaying it

  /** What recovery inserts into a memtable: the operations of every record, numbered from the record's first. */
  function Inserted(log: seq<LogRecord>): seq<(nat, Op)> {
    if log == [] then []
    else Inserted(log[..|log| - 1]) + Numbered(log[|log| - 1].0, log[|log| - 1].1)
  }

  lemma InsertedOneMore(log: seq<LogRecord>, r: LogRecord)
    ensures Inserted(log + [r]) == Inserted(log) + Numbered(r.0, r.1)
  {
    assert (log + [r])[..|log|] == log;
  }

  lemma FrontIsLogged(commits: seq<Commit>)
    requires commits != [] && CommitsLogged(commits)
    ensures CommitsLogged(commits[..|commits| - 1])
    ensures commits[|commits| - 1].logged ==> forall d | d in commits[..|commits| - 1] :: !SyncFailed(d)
    ensures forall d | d in commits[..|commits| - 1] :: d in commits
  {
    var init := commits[..|commits| - 1];
    forall d | d in init
      ensures d in commits && (commits[|commits| - 1].logged ==> !SyncFailed(d))
    {
      var i :| 0 <= i < |init| && init[i] == d;
      assert commits[i] == d;
    }
  }

  /** Every group that got Ok is replayed; nothing else is, but for a last group whose sync failed. */
  lemma {:induction false} ReplayedCommits(commits: seq<Commit>)
    requires CommitsLogged(commits)
    ensures AllApplied(commits) <= Inserted(Logged(commits))
    ensures (forall c | c in commits :: !SyncFailed(c)) ==> AllApplied(commits) == Inserted(Logged(commits))
  {
    if commits != [] {
      var init, c := commits[..|commits| - 1], commits[|commits| - 1];
      FrontIsLogged(commits);
      ReplayedCommits(init);
      assert c in commits;
      assert Logged(commits) == Logged(init) + LoggedOne(c);
      OneMoreReplayed(AllApplied(init), Logged(init), c);
    }
  }

  /** One group more, on both sides. */
  lemma OneMoreReplayed(applied: seq<(nat, Op)>, log: seq<LogRecord>, c: Commit)
    requires applied <= Inserted(log) && (c.outcome == Ok ==> c.logged)
    requires c.logged ==> applied == Inserted(log)
    ensures applied + Applied(c) <= Inserted(log + LoggedOne(c))
    ensures applied == Inserted(log) && !SyncFailed(c) ==> applied + Applied(c) == Inserted(log + LoggedOne(c))
  {
    if c.logged {
      InsertedOneMore(log, RecordOf(c));
    } else {
      assert log + [] == log && applied + [] == applied;
    }
  }

  /**
   Between groups, replaying the log gives exactly the memtable back. Once a sync has failed, and writing has stopped,
   it gives at least the memtable: the record whose sync failed may be replayed too.
   */
  lemma ReplayGivesMemTable(states: seq<State>, steps: seq<Step>, i: nat)
    requires IsRun(states, steps) && i < |states| && states[i].phase == Idle
    ensures states[i].mem <= Inserted(states[i].log)
    ensures !states[i].stopped ==> states[i].mem == Inserted(states[i].log)
  {
    var s := states[i];
    RunKeepsInvariant(states, steps, i);
    RunKeepsLog(states, steps, i);
    assert s.log == Logged(s.commits) + [] == Logged(s.commits);
    assert s.mem == AllApplied(s.commits) + [] == AllApplied(s.commits);
    ReplayedCommits(s.commits);
  }
}
