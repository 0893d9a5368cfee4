/**
 Which files may be deleted: writes, memtable switches, flushes, compactions, MANIFEST writes and DeleteObsoleteFiles
 as steps that interleave wherever the mutex is released. Whatever MANIFEST a crash leaves behind, every acknowledged
 write is covered by its tables or by a log that recovery will replay, and all these files are still there
 (db_impl.cc, version_set.cc).
 */
module LogRetention {

  /** A write, by any identity that tells writes apart. */
  type Write = nat

  /** What the MANIFEST says: the table files, the first log still needed, and the writes the tables account for. */
  datatype Head = Head(files: set<nat>, logNumber: nat, covers: set<Write>)

  /** What the background thread is doing about the MANIFEST. */
  datatype Install =
    | Quiet
    | Flushing(number: nat)
    | Logging(next: Head, isFlush: bool)
    | Logged(next: Head, isFlush: bool)

  /** The compaction under way, if any: the inputs it will delete and the outputs it has opened. */
  datatype Compaction = NoCompaction | Running(inputs: set<nat>, outputs: set<nat>)

  datatype State = State(
    logs: map<nat, set<Write>>, tables: set<nat>,
    mem: set<Write>, imm: set<Write>, hasImm: bool, logNumber: nat,
    current: Head, live: multiset<set<nat>>, pending: set<nat>, nextFile: nat, bgError: bool,
    install: Install, compaction: Compaction,
    durable: set<Head>, acknowledged: set<Write>)

  datatype Step =
    | Append(w: Write, ok: bool)
    | Switch
    | BeginFlush
    | Build(ok: bool, empty: bool)
    | BeginCompaction(inputs: set<nat>)
    | OpenOutput
    | InstallCompaction
    | AbandonCompaction
    | MoveFile
    | WriteManifest(ok: bool)
    | Commit
    | Fail
    | DeleteObsolete
    | Acquire
    | Release(files: set<nat>)

  ghost predicate Init(s: State) {
    && s.logNumber in s.logs && s.mem <= s.logs[s.logNumber] && !s.hasImm && s.imm == {}
    && s.current.logNumber <= s.logNumber
    && s.durable == {s.current} && s.live == multiset{} && s.pending == {} && !s.bgError
    && s.current.files <= s.tables
    && s.install == Quiet && s.compaction == NoCompaction
    && s.acknowledged == s.current.covers + s.mem
    && (forall n | n in s.logs :: n < s.nextFile) && (forall n | n in s.tables :: n < s.nextFile)
  }

  function AddToLog(logs: map<nat, set<Write>>, n: nat, w: Write): map<nat, set<Write>> {
    logs[n := (if n in logs then logs[n] else {}) + {w}]
  }

  /** The logs DeleteObsoleteFiles keeps: PrevLogNumber is 0 and no log has that number. */
  function KeptLogs(s: State): map<nat, set<Write>> {
    map n | n in s.logs && n >= s.current.logNumber :: s.logs[n]
  }

  /** The tables it keeps: those of every live version, and those being written. */
  function KeptTables(s: State): set<nat> {
    set n | n in s.tables && (n in s.pending || n in s.current.files || exists v :: v in s.live && n in v)
  }

  ghost predicate Next(s: State, step: Step, s': State) {
    match step
    case Append(w, ok) =>
      // A failed append may or may not show up in the log, and is not acknowledged.
      if ok then
        s' == s.(logs := AddToLog(s.logs, s.logNumber, w), mem := s.mem + {w}, acknowledged := s.acknowledged + {w})
      else
        s' == s.(logs := AddToLog(s.logs, s.logNumber, w)) || s' == s
    case Switch =>
      && !s.hasImm && !s.bgError
      && s' == s.(logs := s.logs[s.nextFile := {}], logNumber := s.nextFile, nextFile := s.nextFile + 1,
                  imm := s.mem, hasImm := true, mem := {})
    case BeginFlush =>
      && s.hasImm && s.install == Quiet && !s.bgError
      && s' == s.(install := Flushing(s.nextFile), pending := s.pending + {s.nextFile}, nextFile := s.nextFile + 1)
    case Build(ok, empty) =>
      // The output leaves pending_outputs_ here, before any version names it.
      && s.install.Flushing?
      && s' == if !ok then s.(install := Quiet, pending := s.pending - {s.install.number}, bgError := true)
               else if empty then
                 s.(install := Logging(Head(s.current.files, s.logNumber, s.current.covers + s.imm), true),
                    pending := s.pending - {s.install.number})
               else
                 s.(install := Logging(Head(s.current.files + {s.install.number}, s.logNumber,
                                            s.current.covers + s.imm), true),
                    pending := s.pending - {s.install.number}, tables := s.tables + {s.install.number})
    case BeginCompaction(inputs) =>
      && s.install == Quiet && s.compaction == NoCompaction && !s.bgError && inputs <= s.current.files
      && s' == s.(compaction := Running(inputs, {}))
    case OpenOutput =>
      && s.compaction.Running? && s.install == Quiet
      && s' == s.(compaction := s.compaction.(outputs := s.compaction.outputs + {s.nextFile}),
                  pending := s.pending + {s.nextFile}, tables := s.tables + {s.nextFile}, nextFile := s.nextFile + 1)
    case InstallCompaction =>
      && s.compaction.Running? && s.install == Quiet
      && var files := s.current.files - s.compaction.inputs + s.compaction.outputs;
         s' == s.(install := Logging(s.current.(files := files), false))
    case AbandonCompaction =>
      // Any failure is recorded as a background error before the outputs are given up.
      && s.compaction.Running? && s.install == Quiet
      && s' == s.(pending := s.pending - s.compaction.outputs, compaction := NoCompaction, bgError := true)
    case MoveFile =>
      && s.compaction == NoCompaction && s.install == Quiet && !s.bgError
      && s' == s.(install := Logging(s.current, false))
    case WriteManifest(ok) =>
      // After a failed write either version may be the one that recovery finds.
      && s.install.Logging?
      && s' == if ok then s.(durable := {s.install.next}, install := Logged(s.install.next, s.install.isFlush))
               else s.(durable := s.durable + {s.install.next}, install := Quiet, bgError := true)
    case Commit =>
      && s.install.Logged?
      && s' == if s.install.isFlush then
                 s.(current := s.install.next, imm := {}, hasImm := false, install := Quiet)
               else
                 s.(current := s.install.next, install := Quiet,
                    pending := s.pending - (if s.compaction.Running? then s.compaction.outputs else {}),
                    compaction := NoCompaction)
    case Fail =>
      s' == s.(bgError := true)
    case DeleteObsolete =>
      // Called by the background thread only, with the mutex held, and not after a background error.
      && s.install == Quiet && !s.bgError
      && s' == s.(logs := KeptLogs(s), tables := KeptTables(s))
    case Acquire =>
      s' == s.(live := s.live + multiset{s.current.files})
    case Release(files) =>
      s' == s.(live := s.live - multiset{files})
  }

  // ---------------------------------------------------------------- safety

  /** The write is in a log that recovery from this head replays. */
  ghost predicate Replayed(logs: map<nat, set<Write>>, from: nat, w: Write) {
    exists n :: n in logs && n >= from && w in logs[n]
  }

  /** Recovery from this head finds its tables and every acknowledged write. */
  ghost predicate Recoverable(s: State, h: Head) {
    && h.files <= s.tables
    && h.logNumber <= s.logNumber
    && forall w | w in s.acknowledged && w !in h.covers :: Replayed(s.logs, h.logNumber, w)
  }

  ghost predicate NumbersOk(s: State) {
    && (forall n | n in s.logs :: n < s.nextFile)
    && (forall n | n in s.tables :: n < s.nextFile)
    && (s.install.Flushing? ==> s.install.number < s.nextFile)
    && (s.install.Flushing? && s.compaction.Running? ==> s.install.number !in s.compaction.outputs)
  }

  ghost predicate InstallOk(s: State) {
    && (s.install.Flushing? ==> s.hasImm)
    && (s.install.Logging? || s.install.Logged? ==>
          && Recoverable(s, s.install.next)
          && s.current.covers <= s.install.next.covers
          && (if s.install.isFlush then
                s.hasImm && s.install.next.logNumber == s.logNumber && s.install.next.covers == s.current.covers + s.imm
                && s.current.files <= s.install.next.files
              else
                s.install.next.logNumber == s.current.logNumber && s.install.next.covers == s.current.covers))
  }

  ghost predicate DurableOk(s: State) {
    && (forall h | h in s.durable :: Recoverable(s, h))
    && (!s.bgError ==> s.durable == if s.install.Logged? then {s.install.next} else {s.current})
    && (s.install.Logged? ==> s.install.next in s.durable)
  }

  ghost predicate Invariant(s: State) {
    && NumbersOk(s)
    && s.logNumber in s.logs && s.mem <= s.logs[s.logNumber]
    && (!s.hasImm ==> s.imm == {})
    && s.acknowledged == s.current.covers + s.imm + s.mem
    && Recoverable(s, s.current)
    && (forall v | v in s.live :: v <= s.tables)
    && (s.compaction.Running? ==>
          s.compaction.inputs <= s.current.files && s.compaction.outputs <= s.pending
            && s.compaction.outputs <= s.tables)
    && InstallOk(s)
    && DurableOk(s)
  }

  lemma ReplayedStays(logs: map<nat, set<Write>>, logs': map<nat, set<Write>>, from: nat, w: Write)
    requires Replayed(logs, from, w)
    requires forall n | n in logs && n >= from :: n in logs' && logs[n] <= logs'[n]
    ensures Replayed(logs', from, w)
  {
    var n :| n in logs && n >= from && w in logs[n];
    assert n in logs' && n >= from && w in logs'[n];
  }

  /** Adding to logs and tables leaves a head recoverable. */
  lemma RecoverableGrows(s: State, s': State, h: Head)
    requires Recoverable(s, h) && s.tables <= s'.tables && s.logNumber <= s'.logNumber
    requires forall n | n in s.logs && n >= h.logNumber :: n in s'.logs && s.logs[n] <= s'.logs[n]
    requires forall w | w in s'.acknowledged && w !in s.acknowledged :: Replayed(s'.logs, h.logNumber, w)
    ensures Recoverable(s', h)
  {
    forall w | w in s'.acknowledged && w !in h.covers
      ensures Replayed(s'.logs, h.logNumber, w)
    {
      if w in s.acknowledged {
        ReplayedStays(s.logs, s'.logs, h.logNumber, w);
      }
    }
  }

  lemma AppendKeepsInvariant(s: State, w: Write, ok: bool, s': State)
    requires Invariant(s) && Next(s, Append(w, ok), s')
    ensures Invariant(s')
  {
    forall h | Recoverable(s, h)
      ensures Recoverable(s', h)
    {
      if w in s'.acknowledged && w !in s.acknowledged {
        assert s'.logNumber in s'.logs && w in s'.logs[s'.logNumber];
        assert Replayed(s'.logs, h.logNumber, w);
      }
      RecoverableGrows(s, s', h);
    }
  }

  lemma SwitchKeepsInvariant(s: State, s': State)
    requires Invariant(s) && Next(s, Switch, s')
    ensures Invariant(s')
  {
    assert s.logNumber < s.nextFile;
    forall h | Recoverable(s, h)
      ensures Recoverable(s', h)
    {
      RecoverableGrows(s, s', h);
    }
  }

  /** The head a flush will install: everything it does not cover is in the memtable, hence in the current log. */
  lemma FlushHeadRecoverable(s: State, files: set<nat>)
    requires Invariant(s) && files <= s.tables
    ensures Recoverable(s, Head(files, s.logNumber, s.current.covers + s.imm))
  {
    forall w | w in s.acknowledged && w !in s.current.covers + s.imm
      ensures Replayed(s.logs, s.logNumber, w)
    {
      assert w in s.mem && w in s.logs[s.logNumber];
    }
  }

  lemma BuildKeepsInvariant(s: State, ok: bool, empty: bool, s': State)
    requires Invariant(s) && Next(s, Build(ok, empty), s')
    ensures Invariant(s')
  {
    forall h | Recoverable(s, h)
      ensures Recoverable(s', h)
    {
      RecoverableGrows(s, s', h);
    }
    if ok {
      var t := s.(tables := s'.tables, install := Quiet);
      assert Recoverable(t, t.current) by { RecoverableGrows(s, t, s.current); }
      forall h | h in t.durable
        ensures Recoverable(t, h)
      {
        RecoverableGrows(s, t, h);
      }
      assert NumbersOk(s');
      FlushHeadRecoverable(t, s'.install.next.files);
    }
  }

  /** Steps that touch neither logs nor tables, nor what has been acknowledged. */
  lemma SameFiles(s: State, s': State, h: Head)
    requires Recoverable(s, h)
    requires s'.logs == s.logs && s'.tables == s.tables && s'.logNumber == s.logNumber
               && s'.acknowledged == s.acknowledged
    ensures Recoverable(s', h)
  {
  }

  lemma ManifestKeepsInvariant(s: State, ok: bool, s': State)
    requires Invariant(s) && Next(s, WriteManifest(ok), s')
    ensures Invariant(s')
  {
    forall h | Recoverable(s, h)
      ensures Recoverable(s', h)
    {
      SameFiles(s, s', h);
    }
  }

  lemma CommitKeepsInvariant(s: State, s': State)
    requires Invariant(s) && Next(s, Commit, s')
    ensures Invariant(s')
  {
    forall h | Recoverable(s, h)
      ensures Recoverable(s', h)
    {
      SameFiles(s, s', h);
    }
  }

  lemma CompactionKeepsInvariant(s: State, step: Step, s': State)
    requires Invariant(s) && Next(s, step, s')
    requires step.BeginCompaction? || step.OpenOutput? || step.InstallCompaction? || step.AbandonCompaction?
               || step.MoveFile?
    ensures Invariant(s')
  {
    forall h | Recoverable(s, h)
      ensures Recoverable(s', h)
    {
      RecoverableGrows(s, s', h);
    }
  }

  /** What DeleteObsoleteFiles removes, no reachable head needs. */
  lemma DeleteKeepsInvariant(s: State, s': State)
    requires Invariant(s) && Next(s, DeleteObsolete, s')
    ensures Invariant(s')
  {
    assert s.durable == {s.current};
    forall w | w in s.acknowledged && w !in s.current.covers
      ensures Replayed(s'.logs, s.current.logNumber, w)
    {
      ReplayedStays(s.logs, s'.logs, s.current.logNumber, w);
    }
    assert Recoverable(s', s.current);
  }

  lemma StepKeepsInvariant(s: State, step: Step, s': State)
    requires Invariant(s) && Next(s, step, s')
    ensures Invariant(s')
  {
    match step
    case Append(w, ok) => AppendKeepsInvariant(s, w, ok, s');
    case Switch => SwitchKeepsInvariant(s, s');
    case Build(ok, empty) => BuildKeepsInvariant(s, ok, empty, s');
    case WriteManifest(ok) => ManifestKeepsInvariant(s, ok, s');
    case Commit => CommitKeepsInvariant(s, s');
    case DeleteObsolete => DeleteKeepsInvariant(s, s');
    case BeginFlush => OtherStepsKeepInvariant(s, step, s');
    case Fail => OtherStepsKeepInvariant(s, step, s');
    case Acquire => OtherStepsKeepInvariant(s, step, s');
    case Release(files) => OtherStepsKeepInvariant(s, step, s');
    case BeginCompaction(inputs) => CompactionKeepsInvariant(s, step, s');
    case OpenOutput => CompactionKeepsInvariant(s, step, s');
    case InstallCompaction => CompactionKeepsInvariant(s, step, s');
    case AbandonCompaction => CompactionKeepsInvariant(s, step, s');
    case MoveFile => CompactionKeepsInvariant(s, step, s');
  }

  lemma OtherStepsKeepInvariant(s: State, step: Step, s': State)
    requires Invariant(s) && Next(s, step, s')
    requires step.BeginFlush? || step.Fail? || step.Acquire? || step.Release?
    ensures Invariant(s')
  {
    forall h | Recoverable(s, h)
      ensures Recoverable(s', h)
    {
      SameFiles(s, s', h);
    }
  }

  ghost predicate IsRun(states: seq<State>, steps: seq<Step>) {
    && |states| == |steps| + 1
    && Init(states[0])
    && forall i {:trigger steps[i]} | 0 <= i < |steps| :: Next(states[i], steps[i], states[i + 1])
  }

  /** In every reachable state, whichever MANIFEST a crash leaves behind, recovery loses no acknowledged write. */
  lemma {:induction false} NothingIsLost(states: seq<State>, steps: seq<Step>, i: nat)
    requires IsRun(states, steps) && i < |states|
    ensures Invariant(states[i])
    ensures forall h | h in states[i].durable :: Recoverable(states[i], h)
    ensures forall v | v in states[i].live :: v <= states[i].tables
  {
    if i > 0 {
      NothingIsLost(states, steps, i - 1);
      assert Next(states[i - 1], steps[i - 1], states[i]);
      StepKeepsInvariant(states[i - 1], steps[i - 1], states[i]);
    } else {
      StartsRecoverable(states[0]);
    }
  }

  lemma StartsRecoverable(s: State)
    requires Init(s)
    ensures Invariant(s)
  {
    forall w | w in s.acknowledged && w !in s.current.covers
      ensures Replayed(s.logs, s.current.logNumber, w)
    {
      assert w in s.mem && w in s.logs[s.logNumber];
    }
  }

  /** A log that DeleteObsoleteFiles removes holds nothing of the memtables that the tables do not account for. */
  lemma DeletedLogsAreFlushed(states: seq<State>, steps: seq<Step>, i: nat, w: Write)
    requires IsRun(states, steps) && i < |steps| && steps[i] == DeleteObsolete
    requires w in states[i].mem + states[i].imm && w !in states[i].current.covers
    ensures Replayed(states[i + 1].logs, states[i].current.logNumber, w)
  {
    NothingIsLost(states, steps, i);
    NothingIsLost(states, steps, i + 1);
    assert Next(states[i], steps[i], states[i + 1]);
    assert Recoverable(states[i + 1], states[i + 1].current);
  }

  /** The tables still in use: those of the current version and of versions being read, and those being written. */
  ghost predicate IsNeeded(s: State, n: nat) {
    n in s.current.files || (exists v :: v in s.live && n in v) || n in s.pending
  }

  /**
   DeleteObsoleteFiles in any run: afterwards exactly those logs are left that recovery would replay, with what they
   held, and exactly those tables that are needed.
   */
  lemma OnlyNeededFilesAreLeft(states: seq<State>, steps: seq<Step>, i: nat)
    requires IsRun(states, steps) && i < |steps| && steps[i] == DeleteObsolete
    ensures var s, t := states[i], states[i + 1];
            && (forall n :: n in t.logs <==> n in s.logs && s.current.logNumber <= n)
            && (forall n | n in t.logs :: t.logs[n] == s.logs[n])
            && (forall n :: n in t.tables <==> n in s.tables && IsNeeded(s, n))
            && t.current == s.current && t.live == s.live && t.pending == s.pending
  {
    assert Next(states[i], steps[i], states[i + 1]);
  }

  /** And nothing that a reader may open is among the deleted. */
  lemma NeededFilesAreKept(states: seq<State>, steps: seq<Step>, i: nat, n: nat)
    requires IsRun(states, steps) && i < |steps| && steps[i] == DeleteObsolete
    requires n in states[i].current.files || exists v :: v in states[i].live && n in v
    ensures n in states[i + 1].tables
  {
    NothingIsLost(states, steps, i);
    OnlyNeededFilesAreLeft(states, steps, i);
  }
}
