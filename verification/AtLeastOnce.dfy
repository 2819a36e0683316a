/**
 * The job protocol and the indexing it drives, together: workers that hold a claim issue the
 * writes of an execution one by one, may crash or fail at any point, and the job may be claimed
 * and executed again (apps/jobs/index_job_queue.py `_run`, apps/indexing/indexing_service.py).
 */
module AtLeastOnce {
  import JobStore
  import P = JobProtocol
  import opened SearchIndex
  import opened FileIndex
  import opened IncrementalIndexing
  import opened TreeProjection
  import opened SharedSymbols
  import opened IndexingService

  /** The job followed here: its id in the queue, the indexing work it stands for, and the index it starts from. */
  datatype Setting = Setting(job: JobStore.JobId, work: Job, first: Index)

  /**
   * `todo` holds the writes a worker has left, `issued` those of its current execution so far, and
   * `done` all writes of the job by any worker.
   */
  datatype System = System(
    jobs: P.State,
    index: Index,
    todo: map<P.Thread, seq<Op>>,
    issued: map<P.Thread, seq<Op>>,
    done: seq<Op>)

  datatype Event =
    | Protocol(step: P.Event, plan: seq<Op>)  // a store call; `plan` is what a worker that claims the job will write
    | IndexWrite(thread: P.Thread)            // the next write of a worker executing the job
    | OtherWrite(op: Op)                      // a write of some other job, to another project or branch

  function ScopeOf(op: Op): Scope {
    match op
    case Delete(_, scope, _) => scope
    case Put(id, _) => id.scope
  }

  ghost predicate Claims(cfg: Setting, s: System, step: P.Event)
    requires P.Enabled(s.jobs, step)
  {
    step.TryHit? && P.Runs(P.Next(s.jobs, step), step.thread, cfg.job)
  }

  ghost predicate Enabled(cfg: Setting, s: System, e: Event) {
    match e
    case Protocol(step, plan) =>
      && P.Enabled(s.jobs, step)
      && (Claims(cfg, s, step) ==> IsExecution(cfg.work, plan))
      && (step.Finish? && step.result.succeeded && P.Runs(s.jobs, step.thread, cfg.job) ==>
            step.thread in s.todo && s.todo[step.thread] == [])
    case IndexWrite(t) => P.Runs(s.jobs, t, cfg.job) && t in s.todo && t in s.issued && s.todo[t] != []
    case OtherWrite(op) => ScopeOf(op) != cfg.work.pl.scope
  }

  ghost function Next(cfg: Setting, s: System, e: Event): System
    requires Enabled(cfg, s, e)
  {
    match e
    case Protocol(step, plan) =>
      var after := s.(jobs := P.Next(s.jobs, step));
      if Claims(cfg, s, step) then
        after.(todo := s.todo[step.thread := plan], issued := s.issued[step.thread := []])
      else after
    case IndexWrite(t) =>
      var op := s.todo[t][0];
      System(s.jobs, Apply(s.index, op), s.todo[t := s.todo[t][1..]], s.issued[t := s.issued[t] + [op]], s.done + [op])
    case OtherWrite(op) => s.(index := Apply(s.index, op))
  }

  // ---------------------------------------------------------------- the invariant

  /** A worker at the job has issued the latest writes, and they and what it has left make up an execution. */
  ghost predicate MidExecution(cfg: Setting, s: System, t: P.Thread) {
    P.Runs(s.jobs, t, cfg.job) ==>
      && t in s.todo && t in s.issued
      && |s.issued[t]| <= |s.done| && s.done[|s.done| - |s.issued[t]|..] == s.issued[t]
      && IsExecution(cfg.work, s.issued[t] + s.todo[t])
  }

  /** Within the branch the index is what the job's writes made of the first index. */
  ghost predicate BranchIsDone(cfg: Setting, s: System) {
    forall id: DocId :: id.scope == cfg.work.pl.scope ==> Lookup(s.index, id) == Lookup(ApplyAll(cfg.first, s.done), id)
  }

  predicate HasSucceeded(cfg: Setting, s: P.State) {
    cfg.job in s.index.docs && s.index.docs[cfg.job].record.status == JobStore.Succeeded
  }

  ghost predicate Inv(cfg: Setting, s: System) {
    && P.Locked(s.jobs)
    && (forall o :: o in s.done ==> IsJobOp(cfg.work, o))
    && BranchIsDone(cfg, s)
    && (forall t :: MidExecution(cfg, s, t))
    && (HasSucceeded(cfg, s.jobs) ==> IsJobTrace(cfg.work, s.done))
  }

  lemma IndexWriteKeepsBranch(cfg: Setting, s: System, e: Event)
    requires BranchIsDone(cfg, s) && e.IndexWrite? && Enabled(cfg, s, e)
    ensures BranchIsDone(cfg, Next(cfg, s, e))
  {
    hide Apply, P.Runs;
    var s', op := Next(cfg, s, e), s.todo[e.thread][0];
    ApplyAllConcat(cfg.first, s.done, [op]);
    assert s'.done[..|s'.done| - 1] == s.done;
    forall id: DocId | id.scope == cfg.work.pl.scope
      ensures Lookup(s'.index, id) == Lookup(ApplyAll(cfg.first, s'.done), id)
    {
      LookupApply(s.index, op, id);
      LookupApply(ApplyAll(cfg.first, s.done), op, id);
    }
  }

  lemma IndexWriteKeepsExecution(cfg: Setting, s: System, e: Event, u: P.Thread)
    requires P.Locked(s.jobs) && e.IndexWrite? && Enabled(cfg, s, e) && MidExecution(cfg, s, e.thread)
    ensures MidExecution(cfg, Next(cfg, s, e), u)
  {
    hide IsExecution, P.Locked, Apply;
    var s', t := Next(cfg, s, e), e.thread;
    var op := s.todo[t][0];
    if P.Runs(s.jobs, u, cfg.job) {
      LockedMeans(s.jobs, t, u, cfg.job);
      assert s'.issued[t] + s'.todo[t] == s.issued[t] + s.todo[t];
      assert s'.done[|s'.done| - |s'.issued[t]|..] == s.done[|s.done| - |s.issued[t]|..] + [op];
    }
  }

  lemma IndexWriteKeepsInv(cfg: Setting, s: System, e: Event)
    requires Inv(cfg, s) && e.IndexWrite? && Enabled(cfg, s, e)
    ensures Inv(cfg, Next(cfg, s, e))
  {
    hide IsExecution, IsJobOp, P.Locked, Apply, IsJobTrace, BranchIsDone;
    var t := e.thread;
    IndexWriteKeepsBranch(cfg, s, e);
    assert MidExecution(cfg, s, t);
    ExecutionOps(cfg.work, s.issued[t] + s.todo[t]);
    assert s.todo[t][0] in s.issued[t] + s.todo[t];
    forall u ensures MidExecution(cfg, Next(cfg, s, e), u) {
      IndexWriteKeepsExecution(cfg, s, e, u);
    }
    LockedMeans(s.jobs, t, t, cfg.job);
  }

  lemma LockedMeans(s: P.State, t: P.Thread, u: P.Thread, j: JobStore.JobId)
    requires P.Locked(s) && P.Runs(s, t, j)
    ensures P.Runs(s, u, j) ==> u == t
    ensures j in s.index.docs && s.index.docs[j].record.status == JobStore.Running
  {
    assert P.HoldsLock(s, t);
  }

  lemma OtherWriteKeepsInv(cfg: Setting, s: System, e: Event)
    requires Inv(cfg, s) && e.OtherWrite? && Enabled(cfg, s, e)
    ensures Inv(cfg, Next(cfg, s, e))
  {
    var s' := Next(cfg, s, e);
    forall id: DocId | id.scope == cfg.work.pl.scope ensures Lookup(s'.index, id) == Lookup(s.index, id) {
      LookupApply(s.index, e.op, id);
    }
    forall t ensures MidExecution(cfg, s', t) { assert MidExecution(cfg, s, t); }
  }

  /** A job becomes succeeded only by the successful finish of a worker executing it. */
  lemma BecomesSucceeded(s: P.State, e: P.Event, j: JobStore.JobId)
    requires P.Locked(s) && P.Enabled(s, e)
    requires j in P.Next(s, e).index.docs && P.Next(s, e).index.docs[j].record.status == JobStore.Succeeded
    ensures || (j in s.index.docs && s.index.docs[j].record.status == JobStore.Succeeded)
            || (e.Finish? && e.result.succeeded && P.Runs(s, e.thread, j))
  {}

  /** After a protocol step a worker is at a job only if it was before or has just claimed it. */
  lemma RunsAfter(s: P.State, e: P.Event, t: P.Thread, j: JobStore.JobId)
    requires P.Enabled(s, e) && P.Runs(P.Next(s, e), t, j)
    ensures (e.TryHit? && e.thread == t) || P.Runs(s, t, j)
  {
    P.OthersKeepPhase(s, e);
  }

  lemma ProtocolKeepsInv(cfg: Setting, s: System, e: Event)
    requires Inv(cfg, s) && e.Protocol? && Enabled(cfg, s, e)
    requires P.Locked(P.Next(s.jobs, e.step))
    ensures Inv(cfg, Next(cfg, s, e))
  {
    hide IsExecution, IsJobOp, P.Locked, IsJobTrace;
    var s' := Next(cfg, s, e);
    forall t ensures MidExecution(cfg, s', t) {
      assert MidExecution(cfg, s, t);
      if P.Runs(s'.jobs, t, cfg.job) {
        RunsAfter(s.jobs, e.step, t, cfg.job);
        if Claims(cfg, s, e.step) && t == e.step.thread { assert [] + e.plan == e.plan; }
      }
    }
    if HasSucceeded(cfg, s'.jobs) {
      BecomesSucceeded(s.jobs, e.step, cfg.job);
      if !HasSucceeded(cfg, s.jobs) {
        var t := e.step.thread;
        assert MidExecution(cfg, s, t);
        assert s.issued[t] + s.todo[t] == s.issued[t];
        FinishedTrace(cfg, s.done, s.issued[t]);
      }
    }
  }

  /** Leftovers followed by one complete execution are a trace of the job. */
  lemma FinishedTrace(cfg: Setting, done: seq<Op>, last: seq<Op>)
    requires forall o :: o in done ==> IsJobOp(cfg.work, o)
    requires |last| <= |done| && done[|done| - |last|..] == last && IsExecution(cfg.work, last)
    ensures IsJobTrace(cfg.work, done)
  {
    hide IsExecution, IsJobOp;
    var leftovers, trace := done[..|done| - |last|], TagAll(last, 0);
    ByTagged(last);
    assert Interleaves(trace, [last]);
    assert done == leftovers + last;
    assert IsJobTraceOf(cfg.work, done, leftovers, trace, [last]);
  }

  // ---------------------------------------------------------------- whole runs

  ghost predicate IsRun(cfg: Setting, states: seq<System>, events: seq<Event>) {
    && |states| == |events| + 1
    && states[0] == System(P.START, cfg.first, map[], map[], [])
    && forall i :: 0 <= i < |events| ==> StepAt(cfg, states, events, i)
  }

  ghost predicate StepAt(cfg: Setting, states: seq<System>, events: seq<Event>, i: nat)
    requires i < |events| && |states| == |events| + 1
  {
    Enabled(cfg, states[i], events[i]) && states[i + 1] == Next(cfg, states[i], events[i])
  }

  /** No step of the run takes a job away from a worker that is at it. */
  ghost predicate NoneUsurps(states: seq<System>, events: seq<Event>)
    requires |states| == |events| + 1
  {
    forall i :: 0 <= i < |events| ==> !UsurpsJob(states[i].jobs, events[i])
  }

  ghost predicate UsurpsJob(s: P.State, e: Event) {
    e.Protocol? && P.Usurps(s, e.step)
  }

  lemma {:induction false} EveryRunKeepsInv(cfg: Setting, states: seq<System>, events: seq<Event>, i: nat)
    requires IsRun(cfg, states, events) && NoneUsurps(states, events) && i < |states|
    ensures Inv(cfg, states[i])
  {
    if i > 0 {
      EveryRunKeepsInv(cfg, states, events, i - 1);
      assert StepAt(cfg, states, events, i - 1) && !UsurpsJob(states[i - 1].jobs, events[i - 1]);
      var s, e := states[i - 1], events[i - 1];
      match e {
        case Protocol(step, _) =>
          P.LockedStepIff(s.jobs, step);
          ProtocolKeepsInv(cfg, s, e);
        case IndexWrite(_) => IndexWriteKeepsInv(cfg, s, e);
        case OtherWrite(_) => OtherWriteKeepsInv(cfg, s, e);
      }
    } else {
      InvAtStart(cfg);
    }
  }

  lemma InvAtStart(cfg: Setting)
    ensures Inv(cfg, System(P.START, cfg.first, map[], map[], []))
  {}

  /**
   * At-least-once execution is harmless: however many workers claimed the job, crashed or failed
   * part-way, and were replaced, as long as none lost it while at it, once the job has succeeded
   * each document of the branch that at most one of its files writes is what a single undisturbed
   * run would have left.
   */
  lemma SucceededMeansSingleRun(cfg: Setting, states: seq<System>, events: seq<Event>, i: nat, single: seq<Op>, id: DocId)
    requires IsRun(cfg, states, events) && NoneUsurps(states, events) && i < |states|
    requires HasSucceeded(cfg, states[i].jobs) && IsExecution(cfg.work, single)
    requires id.scope == cfg.work.pl.scope && OneJobOwner(cfg.work, id)
    ensures Lookup(states[i].index, id) == Lookup(ApplyAll(cfg.first, single), id)
  {
    EveryRunKeepsInv(cfg, states, events, i);
    ReExecutionIsHarmless(cfg.work, single, states[i].done, cfg.first, id);
  }

  /**
   * From the queue to the tree: if the index reflected the old tree and the change list is adequate,
   * it reflects the new tree whenever the job has succeeded.
   */
  lemma SucceededReflectsTree(cfg: Setting, states: seq<System>, events: seq<Event>, i: nat, oldTree: Tree, id: DocId)
    requires IsRun(cfg, states, events) && NoneUsurps(states, events) && i < |states|
    requires HasSucceeded(cfg, states[i].jobs) && Adequate(cfg.work, oldTree) && id.scope == cfg.work.pl.scope
    requires Uncontested(cfg.work.pl, oldTree, id) && Uncontested(cfg.work.pl, cfg.work.tree, id)
    requires ReflectsAt(cfg.first, cfg.work.pl, oldTree, id)
    ensures ReflectsAt(states[i].index, cfg.work.pl, cfg.work.tree, id)
  {
    EveryRunKeepsInv(cfg, states, events, i);
    hide IsRun, NoneUsurps, MidExecution, IsJobTrace, Adequate, Uncontested;
    IncrementalReachesNewTree(cfg.work, oldTree, states[i].done, cfg.first, id);
  }

  /** For a symbol of any number of files it then holds a definition the new tree gives exactly if the job keeps one. */
  lemma SucceededKeepsSymbolIff(cfg: Setting, states: seq<System>, events: seq<Event>, i: nat, oldTree: Tree, id: DocId)
    requires IsRun(cfg, states, events) && NoneUsurps(states, events) && i < |states|
    requires HasSucceeded(cfg, states[i].jobs) && Adequate(cfg.work, oldTree) && id.scope == cfg.work.pl.scope
    requires HoldsSomeDefinition(Lookup(cfg.first, id), cfg.work.pl, oldTree, id)
    ensures HoldsSomeDefinition(Lookup(states[i].index, id), cfg.work.pl, cfg.work.tree, id)
       <==> KeepsDefinition(cfg.work, Lookup(cfg.first, id), id)
  {
    EveryRunKeepsInv(cfg, states, events, i);
    hide IsRun, NoneUsurps, MidExecution, IsJobTrace, Adequate, HoldsSomeDefinition, KeepsDefinition;
    SymbolKeptIff(cfg.work, oldTree, states[i].done, cfg.first, id);
  }

  // ---------------------------------------------------------------- embeddings read in the middle of a run

  lemma JobOpsAreSound(job: Job, o: Op)
    requires IsJobOp(job, o) && o.Put?
    ensures SoundDoc(o.doc, job.pl.embed)
  {
    var q :| WritesFor(job, q, o);
    hide FileWrites, SoundDoc, Indexes;
    FileWriteIsSound(job.pl, q, job.tree[q], o);
  }

  /**
   * In every state of every run, crashed and repeated executions included, each stored vector of the
   * branch is the embedding of the text with its hash. So what a worker reuses in the middle of a run
   * is what it would have computed when it claimed the job, and its plan can be fixed then.
   */
  lemma EmbeddingsStaySound(cfg: Setting, states: seq<System>, events: seq<Event>, i: nat, id: DocId)
    requires IsRun(cfg, states, events) && NoneUsurps(states, events) && i < |states|
    requires EmbeddingsSound(cfg.first, cfg.work.pl.embed)
    requires id.scope == cfg.work.pl.scope && id in states[i].index
    ensures SoundDoc(states[i].index[id], cfg.work.pl.embed)
  {
    EveryRunKeepsInv(cfg, states, events, i);
    hide IsRun, NoneUsurps, MidExecution, IsJobOp, IsJobTrace, SoundDoc;
    var done := states[i].done;
    forall o | o in done && o.Put? ensures SoundDoc(o.doc, cfg.work.pl.embed) { JobOpsAreSound(cfg.work, o); }
    SoundPutsKeepSound(cfg.first, done, cfg.work.pl.embed);
    assert Lookup(states[i].index, id) == Lookup(ApplyAll(cfg.first, done), id);
  }

  // ---------------------------------------------------------------- when nothing is usurped

  /** A shared clock, workers within their locks, submitters apart. */
  ghost predicate Disciplined(states: seq<System>, events: seq<Event>)
    requires |states| == |events| + 1
  {
    forall i :: 0 <= i < |events| ==> DisciplinedStep(states[i].jobs, events[i])
  }

  ghost predicate DisciplinedStep(s: P.State, e: Event) {
    P.Timely(s) && P.SubmittersApart(s) && (e.Protocol? ==> P.OnSharedClock(s, e.step))
  }

  lemma GuardedAtStart()
    ensures P.Guarded(P.START)
  {}

  lemma {:induction false} DisciplinedIsGuarded(cfg: Setting, states: seq<System>, events: seq<Event>, i: nat)
    requires IsRun(cfg, states, events) && Disciplined(states, events) && i < |states|
    ensures P.Guarded(states[i].jobs)
  {
    hide P.Guarded;
    if i == 0 {
      GuardedAtStart();
    } else {
      DisciplinedIsGuarded(cfg, states, events, i - 1);
      assert StepAt(cfg, states, events, i - 1) && DisciplinedStep(states[i - 1].jobs, events[i - 1]);
      if events[i - 1].Protocol? { P.GuardedStep(states[i - 1].jobs, events[i - 1].step); }
    }
  }

  /** The discipline is enough for that. */
  lemma DisciplinedUsurpsNothing(cfg: Setting, states: seq<System>, events: seq<Event>)
    requires IsRun(cfg, states, events) && Disciplined(states, events)
    ensures NoneUsurps(states, events)
  {
    forall i | 0 <= i < |events| ensures !UsurpsJob(states[i].jobs, events[i]) {
      DisciplinedIsGuarded(cfg, states, events, i);
      assert StepAt(cfg, states, events, i) && DisciplinedStep(states[i].jobs, events[i]);
      if events[i].Protocol? { P.DisciplineForbidsUsurping(states[i].jobs, events[i].step); }
    }
  }
}
