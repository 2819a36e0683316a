/**
 * Many workers and submitters over one job index (adapters/elasticsearch/_jobs.py driven by
 * apps/jobs/index_job_queue.py).  Every store call is one atomic step, so a search and the
 * compare-and-set that follows it, or the read and the write of an enqueue, can be separated
 * by steps of others.
 */
module JobProtocol {
  import opened Common
  import opened JobStore

  type Thread = nat

  datatype Phase =
    | Idle
    | Trying(now: Time, hits: seq<Hit>)       // searched at `now`; these hits are still to be tried
    | Executing(job: JobId, expires: Time)    // between the claim and finish_job or fail_job

  datatype PendingWrite =
    | Overwriting(job: JobId, record: Record) // read a failed record, about to overwrite it
    | Creating(job: JobId, record: Record)    // read nothing, about to create

  /** What has happened to the documents: the claims carry the record they replaced and its version. */
  datatype Entry =
    | Enqueued(job: JobId)
    | Claimed(job: JobId, version: nat, before: Record, searchedAt: Time)

  datatype State = State(
    index: Index,
    clock: Time,
    workers: map<Thread, Phase>,
    submitters: map<Thread, PendingWrite>,
    log: seq<Entry>)

  datatype Event =
    | Tick(to: Time)
    | Search(thread: Thread, now: Time, hits: seq<Hit>)
    | TryHit(thread: Thread, worker: WorkerId, ttl: Time)
    | Finish(thread: Thread, result: Result, at: Time)
    | Fail(thread: Thread, error: string, at: Time)
    | Crash(thread: Thread)
    | EnqueueRead(thread: Thread, job: JobId, record: Record)
    | EnqueueWrite(thread: Thread)

  function PhaseOf(s: State, t: Thread): Phase {
    if t in s.workers then s.workers[t] else Idle
  }

  predicate Runs(s: State, t: Thread, j: JobId) {
    PhaseOf(s, t).Executing? && PhaseOf(s, t).job == j
  }

  const START := State(NO_JOBS, 0, map[], map[], [])

  ghost predicate Enabled(s: State, e: Event) {
    match e
    case Tick(to) => s.clock <= to
    case Search(t, now, hits) => PhaseOf(s, t).Idle? && IsSearchResult(s.index.docs, now, hits, 10)
    case TryHit(t, _, _) => PhaseOf(s, t).Trying?
    case Finish(t, result, _) =>
      PhaseOf(s, t).Executing? && PhaseOf(s, t).job in s.index.docs && result.job == PhaseOf(s, t).job
    case Fail(t, _, _) => PhaseOf(s, t).Executing? && PhaseOf(s, t).job in s.index.docs
    case Crash(t) => true
    case EnqueueRead(t, _, r) => t !in s.submitters && r.status == Queued && r.attempts == 0
    case EnqueueWrite(t) => t in s.submitters
  }

  function Next(s: State, e: Event): State
    requires Enabled(s, e)
  {
    match e
    case Tick(to) => s.(clock := to)
    case Search(t, now, hits) => s.(workers := s.workers[t := Trying(now, hits)])
    case TryHit(t, worker, ttl) => NextTry(s, t, worker, ttl)
    case Finish(t, result, at) =>
      s.(index := End(s.index, PhaseOf(s, t).job, Finished(result), at),
         workers := s.workers[t := Idle])
    case Fail(t, error, at) =>
      s.(index := End(s.index, PhaseOf(s, t).job, Aborted(error), at), workers := s.workers[t := Idle])
    case Crash(t) => s.(workers := s.workers[t := Idle])
    case EnqueueRead(t, j, r) =>
      if j !in s.index.docs then s.(submitters := s.submitters[t := Creating(j, r)])
      else if s.index.docs[j].record.status == Failed then s.(submitters := s.submitters[t := Overwriting(j, r)])
      else s
    case EnqueueWrite(t) => NextWrite(s, t)
  }

  /** One turn of the claim loop: no hit left, a stale hit skipped, or a job claimed. */
  function NextTry(s: State, t: Thread, worker: WorkerId, ttl: Time): State
    requires PhaseOf(s, t).Trying?
  {
    var Trying(now, hits) := PhaseOf(s, t);
    if hits == [] then s.(workers := s.workers[t := Idle])
    else
      var h := hits[0];
      if !Fresh(s.index, h) then s.(workers := s.workers[t := Trying(now, hits[1..])])
      else s.(index := Claim(s.index, h, worker, now, ttl),
              workers := s.workers[t := Executing(h.id, now + ttl)],
              log := s.log + [Claimed(h.id, h.seqNo, s.index.docs[h.id].record, now)])
  }

  /** The write half of an enqueue: an overwrite always lands, a create only if the job is still missing. */
  function NextWrite(s: State, t: Thread): State
    requires t in s.submitters
  {
    var rest := s.submitters - {t};
    match s.submitters[t]
    case Overwriting(j, r) =>
      s.(index := Write(s.index, j, r), submitters := rest, log := s.log + [Enqueued(j)])
    case Creating(j, r) =>
      if j in s.index.docs then s.(submitters := rest)
      else s.(index := Write(s.index, j, r), submitters := rest, log := s.log + [Enqueued(j)])
  }

  // ---------------------------------------------------------------- the steps of one call, uninterrupted

  /** The turns of a claim loop that nobody interrupts. */
  function TryHits(s: State, t: Thread, worker: WorkerId, ttl: Time): State
    requires PhaseOf(s, t).Trying?
    decreases |PhaseOf(s, t).hits|
  {
    var after := NextTry(s, t, worker, ttl);
    if PhaseOf(after, t).Trying? then TryHits(after, t, worker, ttl) else after
  }

  /** Uninterrupted, the steps do what `JobIndex.ClaimFromHits` does: the first fresh hit is claimed. */
  lemma {:induction false} UninterruptedTriesClaim(s: State, t: Thread, worker: WorkerId, ttl: Time, k: nat)
    requires PhaseOf(s, t).Trying? && k <= |PhaseOf(s, t).hits|
    requires forall i :: 0 <= i < k ==> !Fresh(s.index, PhaseOf(s, t).hits[i])
    requires k < |PhaseOf(s, t).hits| ==> Fresh(s.index, PhaseOf(s, t).hits[k])
    ensures var Trying(now, hits) := PhaseOf(s, t);
            var after := TryHits(s, t, worker, ttl);
            if k == |hits| then after.index == s.index && PhaseOf(after, t) == Idle
            else
              && after.index == Claim(s.index, hits[k], worker, now, ttl)
              && PhaseOf(after, t) == Executing(hits[k].id, now + ttl)
    decreases k
  {
    if k > 0 { UninterruptedTriesClaim(NextTry(s, t, worker, ttl), t, worker, ttl, k - 1); }
  }

  /** Uninterrupted, the read and the write of an enqueue do what `JobIndex.EnqueueJob` does. */
  lemma UninterruptedEnqueue(s: State, t: Thread, j: JobId, r: Record)
    requires Enabled(s, EnqueueRead(t, j, r))
    ensures var read := Next(s, EnqueueRead(t, j, r));
            if j in s.index.docs && s.index.docs[j].record.status != Failed then read == s
            else Enabled(read, EnqueueWrite(t)) && Next(read, EnqueueWrite(t)).index == Write(s.index, j, r)
  {}

  /** A run: consecutive states linked by enabled events, from the empty index. */
  ghost predicate IsRun(states: seq<State>, events: seq<Event>) {
    && |states| == |events| + 1
    && states[0] == START
    && forall i :: 0 <= i < |events| ==> StepAt(states, events, i)
  }

  ghost predicate StepAt(states: seq<State>, events: seq<Event>, i: nat)
    requires i < |events| && |states| == |events| + 1
  {
    Enabled(states[i], events[i]) && states[i + 1] == Next(states[i], events[i])
  }

  // ---------------------------------------------------------------- safety of claims, with no assumption

  /** The claims of a job since it was last enqueued. */
  function ClaimsSinceEnqueue(log: seq<Entry>, j: JobId): nat {
    if log == [] then 0
    else
      var last := log[|log| - 1];
      if last.job != j then ClaimsSinceEnqueue(log[..|log| - 1], j)
      else if last.Enqueued? then 0
      else ClaimsSinceEnqueue(log[..|log| - 1], j) + 1
  }

  lemma ClaimsAppend(log: seq<Entry>, e: Entry, j: JobId)
    ensures ClaimsSinceEnqueue(log + [e], j)
         == if e.job != j then ClaimsSinceEnqueue(log, j) else if e.Enqueued? then 0 else ClaimsSinceEnqueue(log, j) + 1
  {
    assert (log + [e])[..|log|] == log;
  }

  /** A hit is a claimable record, and if its version is still current so is its content. */
  ghost predicate Snapshot(ix: Index, h: Hit, now: Time) {
    && Claimable(h.record, now)
    && h.seqNo < ix.nextSeq
    && (Fresh(ix, h) ==> ix.docs[h.id].record == h.record)
  }

  ghost predicate LogEntrySafe(ix: Index, e: Entry) {
    e.Claimed? ==> Claimable(e.before, e.searchedAt) && e.job in ix.docs && e.version < ix.docs[e.job].seqNo
  }

  ghost predicate VersionsDistinct(log: seq<Entry>) {
    forall i, j :: 0 <= i < j < |log| && log[i].Claimed? && log[j].Claimed? && log[i].job == log[j].job ==>
      log[i].version < log[j].version
  }

  ghost predicate Attempts(s: State, j: JobId) {
    j in s.index.docs ==> s.index.docs[j].record.attempts == ClaimsSinceEnqueue(s.log, j)
  }

  ghost predicate Safe(s: State) {
    && (forall j :: j in s.index.docs ==> s.index.docs[j].seqNo < s.index.nextSeq)
    && (forall t, h :: t in s.workers && s.workers[t].Trying? && h in s.workers[t].hits ==>
          Snapshot(s.index, h, s.workers[t].now))
    && (forall e :: e in s.log ==> LogEntrySafe(s.index, e))
    && VersionsDistinct(s.log)
    && (forall j :: Attempts(s, j))
    && (forall t :: t in s.submitters ==> s.submitters[t].record.status == Queued && s.submitters[t].record.attempts == 0)
  }

  /** Writing a document never makes a stale hit look fresh, and only moves versions forward. */
  lemma WriteKeepsSnapshots(ix: Index, id: JobId, r: Record, h: Hit, now: Time)
    requires Snapshot(ix, h, now)
    ensures Snapshot(Write(ix, id, r), h, now)
  {}

  lemma SafeSearch(s: State, e: Event)
    requires Safe(s) && e.Search? && Enabled(s, e)
    ensures Safe(Next(s, e))
  {
    var s' := Next(s, e);
    forall h | h in e.hits ensures Snapshot(s.index, h, e.now) { assert HitOf(s.index.docs, h); }
    assert forall j :: Attempts(s, j) ==> Attempts(s', j);
  }

  lemma SafeWrite(s: State, j: JobId, r: Record, s': State, e: Entry)
    requires Safe(s) && s'.index == Write(s.index, j, r) && e.job == j
    requires s'.log == s.log + [e] || (s'.log == s.log && j in s.index.docs && r.attempts == s.index.docs[j].record.attempts)
    requires s'.log != s.log ==> r.attempts == if e.Enqueued? then 0 else ClaimsSinceEnqueue(s.log, j) + 1
    requires s'.log != s.log && e.Claimed? ==>
               Claimable(e.before, e.searchedAt) && j in s.index.docs && e.version == s.index.docs[j].seqNo
    requires forall t :: t in s'.workers && s'.workers[t].Trying? ==> t in s.workers && s'.workers[t] == s.workers[t]
    requires forall t :: t in s'.submitters ==> t in s.submitters && s'.submitters[t] == s.submitters[t]
    ensures Safe(s')
  {
    forall k ensures Attempts(s', k) { assert Attempts(s, k); ClaimsAppend(s.log, e, k); }
    forall x | x in s'.log ensures LogEntrySafe(s'.index, x) {
      if x in s.log { assert LogEntrySafe(s.index, x); }
    }
    if s'.log != s.log {
      forall i | 0 <= i < |s.log| && e.Claimed? && s.log[i].Claimed? && s.log[i].job == j
        ensures s.log[i].version < e.version
      {
        assert LogEntrySafe(s.index, s.log[i]);
      }
    }
    forall t, h | t in s'.workers && s'.workers[t].Trying? && h in s'.workers[t].hits
      ensures Snapshot(s'.index, h, s'.workers[t].now)
    {
      WriteKeepsSnapshots(s.index, j, r, h, s.workers[t].now);
    }
  }

  lemma SafeTry(s: State, e: Event)
    requires Safe(s) && e.TryHit? && Enabled(s, e)
    ensures Safe(Next(s, e))
  {
    var s', t := Next(s, e), e.thread;
    var Trying(now, hits) := PhaseOf(s, t);
    assert forall j :: Attempts(s, j) && s'.index == s.index && s'.log == s.log ==> Attempts(s', j);
    if hits != [] && Fresh(s.index, hits[0]) {
      var h := hits[0];
      assert h in hits && Snapshot(s.index, h, now) && Attempts(s, h.id);
      SafeWrite(s, h.id, ClaimUpdate(s.index.docs[h.id].record, h.record, e.worker, now, e.ttl), s',
                Claimed(h.id, h.seqNo, s.index.docs[h.id].record, now));
    }
  }

  lemma SafeStep(s: State, e: Event)
    requires Safe(s) && Enabled(s, e)
    ensures Safe(Next(s, e))
  {
    var s' := Next(s, e);
    match e {
      case Search(_, _, _) => SafeSearch(s, e);
      case TryHit(_, _, _) => SafeTry(s, e);
      case Finish(t, result, at) =>
        var j := PhaseOf(s, t).job;
        SafeWrite(s, j, EndUpdate(s.index.docs[j].record, Finished(result), at), s', Enqueued(j));
      case Fail(t, error, at) =>
        var j := PhaseOf(s, t).job;
        SafeWrite(s, j, EndUpdate(s.index.docs[j].record, Aborted(error), at), s', Enqueued(j));
      case EnqueueWrite(t) =>
        var sub := s.submitters[t];
        if s'.log != s.log {
          SafeWrite(s, sub.job, sub.record, s', Enqueued(sub.job));
        } else {
          assert forall j :: Attempts(s, j) ==> Attempts(s', j);
        }
      case _ =>
        assert forall j :: Attempts(s, j) ==> Attempts(s', j);
    }
  }

  /**
   * In every state of every run, however the steps interleave and whatever the clocks say: each
   * successful claim took a record that was queued, or running with a lock expired at the
   * claimer's search time; no version was claimed twice; and `attempts` counts the claims since
   * the last enqueue.
   */
  lemma {:induction false} EveryRunIsSafe(states: seq<State>, events: seq<Event>, i: nat)
    requires IsRun(states, events) && i < |states|
    ensures Safe(states[i])
  {
    if i > 0 {
      EveryRunIsSafe(states, events, i - 1);
      assert StepAt(states, events, i - 1);
      SafeStep(states[i - 1], events[i - 1]);
    }
  }

  /** A running record always says when its lock expires. */
  ghost predicate LocksExpire(ix: Index) {
    forall j :: j in ix.docs && ix.docs[j].record.status == Running ==> ix.docs[j].record.lockExpiresAt.Some?
  }

  lemma LocksExpireStep(s: State, e: Event)
    requires Safe(s) && LocksExpire(s.index) && Enabled(s, e)
    ensures LocksExpire(Next(s, e).index)
  {
    match e {
      case EnqueueWrite(t) => assert s.submitters[t].record.status == Queued;
      case _ =>
    }
  }

  lemma {:induction false} EveryLockExpires(states: seq<State>, events: seq<Event>, i: nat)
    requires IsRun(states, events) && i < |states|
    ensures LocksExpire(states[i].index)
  {
    if i > 0 {
      EveryLockExpires(states, events, i - 1);
      EveryRunIsSafe(states, events, i - 1);
      assert StepAt(states, events, i - 1);
      LocksExpireStep(states[i - 1], events[i - 1]);
    }
  }

  /**
   * No job gets stuck, wherever workers crash: in every state of every run a job that has neither
   * succeeded nor failed can be claimed at once, or once the time its record names has passed.
   */
  lemma UnfinishedJobsAreClaimable(states: seq<State>, events: seq<Event>, i: nat, j: JobId) returns (from: Time)
    requires IsRun(states, events) && i < |states|
    requires j in states[i].index.docs && states[i].index.docs[j].record.status in {Queued, Running}
    ensures forall now :: now > from ==> Claimable(states[i].index.docs[j].record, now)
    ensures states[i].index.docs[j].record.status == Running ==>
              states[i].index.docs[j].record.lockExpiresAt == Some(from)
  {
    EveryLockExpires(states, events, i);
    var r := states[i].index.docs[j].record;
    from := if r.status == Running then r.lockExpiresAt.value else 0;
  }

  predicate HasEnded(s: State, j: JobId) {
    j in s.index.docs && s.index.docs[j].record.status in {Succeeded, Failed}
  }

  /** The step writes a new submission of the job. */
  predicate Resubmits(s: State, e: Event, j: JobId) {
    e.EnqueueWrite? && e.thread in s.submitters && s.submitters[e.thread].job == j
  }

  /** A worker that finishes or fails a job ends it: succeeded exactly with a successful result. */
  lemma EndingEnds(s: State, e: Event)
    requires Enabled(s, e) && (e.Finish? || e.Fail?)
    ensures var j := PhaseOf(s, e.thread).job;
            && HasEnded(Next(s, e), j)
            && (Next(s, e).index.docs[j].record.status == Succeeded <==> e.Finish? && e.result.succeeded)
  {}

  lemma EndedStep(s: State, e: Event, j: JobId)
    requires Safe(s) && Enabled(s, e) && HasEnded(s, j) && !Resubmits(s, e, j)
    ensures HasEnded(Next(s, e), j)
  {
    match e {
      case TryHit(t, _, _) =>
        var Trying(now, hits) := PhaseOf(s, t);
        assert hits != [] ==> hits[0] in hits;
        assert hits != [] ==> Snapshot(s.index, hits[0], now);
      case Finish(_, _, _) => EndingEnds(s, e);
      case Fail(_, _, _) => EndingEnds(s, e);
      case _ =>
    }
  }

  /**
   * In every run, with any clocks and however late its workers: a job that has ended stays so, and
   * can be claimed by nobody at any time, until it is submitted anew.
   */
  lemma {:induction false} EndedIsNotClaimable(states: seq<State>, events: seq<Event>, i: nat, k: nat, j: JobId, now: Time)
    requires IsRun(states, events) && i <= k < |states| && HasEnded(states[i], j)
    requires forall n :: i <= n < k ==> !Resubmits(states[n], events[n], j)
    ensures HasEnded(states[k], j) && !Claimable(states[k].index.docs[j].record, now)
    decreases k - i
  {
    if i < k {
      EndedIsNotClaimable(states, events, i, k - 1, j, now);
      EveryRunIsSafe(states, events, k - 1);
      assert StepAt(states, events, k - 1);
      EndedStep(states[k - 1], events[k - 1], j);
    }
  }

  // ---------------------------------------------------------------- mutual exclusion

  /** Searches read the shared clock. */
  predicate OnSharedClock(s: State, e: Event) {
    e.Search? ==> e.now == s.clock
  }

  /** No worker is still at a job after the lock it took has expired. */
  ghost predicate Timely(s: State) {
    forall t :: t in s.workers && s.workers[t].Executing? ==> s.clock <= s.workers[t].expires
  }

  /** No two submitters are both between reading a failed record and overwriting it. */
  ghost predicate SubmittersApart(s: State) {
    forall t, u :: t in s.submitters && u in s.submitters && t != u
      && s.submitters[t].Overwriting? && s.submitters[u].Overwriting?
      ==> s.submitters[t].job != s.submitters[u].job
  }

  ghost predicate Disciplined(states: seq<State>, events: seq<Event>)
    requires IsRun(states, events)
  {
    && (forall i :: 0 <= i < |events| ==> OnSharedClock(states[i], events[i]))
    && forall i :: 0 <= i < |states| ==> Timely(states[i]) && SubmittersApart(states[i])
  }

  ghost predicate HoldsLock(s: State, t: Thread) {
    PhaseOf(s, t).Executing? ==>
      var Executing(j, expires) := PhaseOf(s, t);
      && j in s.index.docs && s.index.docs[j].record.status == Running
      && s.index.docs[j].record.lockExpiresAt == Some(expires)
  }

  ghost predicate SeesFailed(s: State, t: Thread) {
    t in s.submitters && s.submitters[t].Overwriting? ==>
      var j := s.submitters[t].job;
      j in s.index.docs && s.index.docs[j].record.status == Failed
  }

  ghost predicate MutualExclusion(s: State) {
    forall t, u, j :: Runs(s, t, j) && Runs(s, u, j) ==> t == u
  }

  /** Each worker is alone at its job and holds the lock the stored record names. */
  ghost predicate Locked(s: State) {
    Safe(s) && MutualExclusion(s) && forall t :: HoldsLock(s, t)
  }

  ghost predicate Guarded(s: State) {
    && Locked(s)
    && (forall t :: SeesFailed(s, t))
    && (forall t :: PhaseOf(s, t).Trying? ==> PhaseOf(s, t).now <= s.clock)
  }

  predicate Moves(e: Event, t: Thread) {
    match e
    case Search(u, _, _) => u == t
    case TryHit(u, _, _) => u == t
    case Finish(u, _, _) => u == t
    case Fail(u, _, _) => u == t
    case Crash(u) => u == t
    case _ => false
  }

  /** A step changes the phase of the worker that takes it and of no other. */
  lemma OthersKeepPhase(s: State, e: Event)
    requires Enabled(s, e)
    ensures forall u :: Moves(e, u) || PhaseOf(Next(s, e), u) == PhaseOf(s, u)
  {}

  lemma FewerRunsStayExclusive(s: State, s': State)
    requires MutualExclusion(s)
    requires forall u, j :: Runs(s', u, j) ==> Runs(s, u, j)
    ensures MutualExclusion(s')
  {
    forall t, u, j | Runs(s', t, j) && Runs(s', u, j) ensures t == u {
      assert Runs(s, t, j) && Runs(s, u, j);
    }
  }

  /**
   * The step takes a job away from a worker that is at it: a claim of a job whose holder is past
   * its lock at the search time, or an overwrite that lands while the job is being executed.
   */
  ghost predicate Usurps(s: State, e: Event) {
    match e
    case TryHit(t, _, _) =>
      && PhaseOf(s, t).Trying? && PhaseOf(s, t).hits != [] && Fresh(s.index, PhaseOf(s, t).hits[0])
      && exists u :: Runs(s, u, PhaseOf(s, t).hits[0].id) && PhaseOf(s, u).expires < PhaseOf(s, t).now
    case EnqueueWrite(t) => t in s.submitters && s.submitters[t].Overwriting? && exists u :: Runs(s, u, s.submitters[t].job)
    case _ => false
  }

  /** A fresh hit on a job that is being executed was found after the lock of its holder had expired. */
  lemma ClaimedWhileExecuting(s: State, t: Thread, u: Thread)
    requires Locked(s)
    requires PhaseOf(s, t).Trying? && PhaseOf(s, t).hits != [] && Fresh(s.index, PhaseOf(s, t).hits[0])
    requires Runs(s, u, PhaseOf(s, t).hits[0].id)
    ensures u != t && PhaseOf(s, u).expires < PhaseOf(s, t).now
  {
    var h := PhaseOf(s, t).hits[0];
    assert h in PhaseOf(s, t).hits && Snapshot(s.index, h, PhaseOf(s, t).now);
    assert HoldsLock(s, u);
  }

  /** Within their locks on a shared clock, workers lose no job to a claim. */
  lemma NoClaimWhileExecuting(s: State, t: Thread, u: Thread)
    requires Guarded(s) && Timely(s)
    requires PhaseOf(s, t).Trying? && PhaseOf(s, t).hits != [] && Fresh(s.index, PhaseOf(s, t).hits[0])
    ensures !Runs(s, u, PhaseOf(s, t).hits[0].id)
  {
    if Runs(s, u, PhaseOf(s, t).hits[0].id) {
      ClaimedWhileExecuting(s, t, u);
      assert false;
    }
  }

  /** A claim breaks exclusion exactly when it takes a job whose holder is past its lock. */
  lemma ClaimKeepsExclusionIff(s: State, e: Event)
    requires Locked(s) && e.TryHit? && Enabled(s, e)
    ensures MutualExclusion(Next(s, e)) <==> !Usurps(s, e)
  {
    var s', t := Next(s, e), e.thread;
    OthersKeepPhase(s, e);
    hide Safe;
    var Trying(now, hits) := PhaseOf(s, t);
    if hits != [] && Fresh(s.index, hits[0]) {
      var j := hits[0].id;
      assert Runs(s', t, j);
      forall u | Runs(s, u, j) ensures u != t && PhaseOf(s, u).expires < now && Runs(s', u, j) {
        ClaimedWhileExecuting(s, t, u);
      }
      forall a, b, k | Runs(s', a, k) && Runs(s', b, k) && !Usurps(s, e) ensures a == b {
        assert a != t ==> Runs(s, a, k);
        assert b != t ==> Runs(s, b, k);
      }
    } else {
      FewerRunsStayExclusive(s, s');
    }
  }

  lemma ClaimKeepsLocks(s: State, e: Event, u: Thread)
    requires Locked(s) && e.TryHit? && Enabled(s, e) && !Usurps(s, e)
    ensures HoldsLock(Next(s, e), u)
  {
    OthersKeepPhase(s, e);
    assert HoldsLock(s, u);
    var Trying(_, hits) := PhaseOf(s, e.thread);
    if hits != [] && Fresh(s.index, hits[0]) && Runs(s, u, hits[0].id) {
      ClaimedWhileExecuting(s, e.thread, u);
      assert false;
    }
  }

  lemma EndKeepsLocks(s: State, e: Event)
    requires Locked(s) && (e.Finish? || e.Fail?) && Enabled(s, e)
    ensures Locked(Next(s, e))
  {
    var s', t := Next(s, e), e.thread;
    SafeStep(s, e);
    OthersKeepPhase(s, e);
    FewerRunsStayExclusive(s, s');
    forall u ensures HoldsLock(s', u) {
      assert HoldsLock(s, u) && HoldsLock(s, t);
      assert u != t && Runs(s, u, PhaseOf(s, t).job) ==> Runs(s, t, PhaseOf(s, t).job);
    }
  }

  /** A write of a submitter keeps the locks exactly if the record it lands on is not being executed. */
  lemma WriteKeepsLocksIff(s: State, e: Event)
    requires Locked(s) && e.EnqueueWrite? && Enabled(s, e)
    ensures Locked(Next(s, e)) <==> !Usurps(s, e)
  {
    var s', sub := Next(s, e), s.submitters[e.thread];
    SafeStep(s, e);
    OthersKeepPhase(s, e);
    FewerRunsStayExclusive(s, s');
    assert sub.record.status == Queued;
    hide Safe;
    forall u ensures HoldsLock(s', u) <==> !(sub.Overwriting? && Runs(s, u, sub.job)) { assert HoldsLock(s, u); }
  }

  /** One step keeps every worker alone at its job and in possession of its lock exactly if it does not usurp a job. */
  lemma LockedStepIff(s: State, e: Event)
    requires Locked(s) && Enabled(s, e)
    ensures Locked(Next(s, e)) <==> !Usurps(s, e)
  {
    var s' := Next(s, e);
    match e {
      case TryHit(_, _, _) =>
        SafeStep(s, e);
        ClaimKeepsExclusionIff(s, e);
        if !Usurps(s, e) { forall u ensures HoldsLock(s', u) { ClaimKeepsLocks(s, e, u); } }
      case Finish(_, _, _) => EndKeepsLocks(s, e);
      case Fail(_, _, _) => EndKeepsLocks(s, e);
      case EnqueueWrite(_) => WriteKeepsLocksIff(s, e);
      case _ =>
        SafeStep(s, e);
        OthersKeepPhase(s, e);
        hide Safe;
        FewerRunsStayExclusive(s, s');
        forall u ensures HoldsLock(s', u) { assert HoldsLock(s, u); }
    }
  }

  ghost predicate NoneUsurps(states: seq<State>, events: seq<Event>, n: nat)
    requires |states| == |events| + 1 && n <= |events|
  {
    forall k :: 0 <= k < n ==> !Usurps(states[k], events[k])
  }

  ghost predicate LockedThrough(states: seq<State>, n: nat)
    requires n <= |states|
  {
    forall k :: 0 <= k < n ==> Locked(states[k])
  }

  /**
   * The exact condition for whole runs, with any clocks and any submitters: up to a state every
   * worker was alone at its job and held its lock if and only if no step before it usurped a job.
   */
  lemma {:induction false} LockedIffNoneUsurps(states: seq<State>, events: seq<Event>, n: nat)
    requires IsRun(states, events) && n <= |events|
    ensures LockedThrough(states, n + 1) <==> NoneUsurps(states, events, n)
  {
    if n == 0 {
      assert Locked(START);
    } else {
      LockedIffNoneUsurps(states, events, n - 1);
      assert StepAt(states, events, n - 1);
      if Locked(states[n - 1]) { LockedStepIff(states[n - 1], events[n - 1]); }
      hide Locked, Usurps, IsRun;
      assert LockedThrough(states, n + 1) <==> LockedThrough(states, n) && Locked(states[n]);
      assert NoneUsurps(states, events, n) <==> NoneUsurps(states, events, n - 1) && !Usurps(states[n - 1], events[n - 1]);
      assert LockedThrough(states, n) ==> Locked(states[n - 1]);
    }
  }

  /** A claim of a job that another worker is at, found either queued again or past the lock it was stored with. */
  ghost predicate Joins(s: State, e: Event) {
    && e.TryHit? && PhaseOf(s, e.thread).Trying? && PhaseOf(s, e.thread).hits != []
    && var Trying(now, hits) := PhaseOf(s, e.thread);
    && Fresh(s.index, hits[0]) && Claimable(s.index.docs[hits[0].id].record, now)
    && exists u :: Runs(s, u, hits[0].id)
  }

  /** Whatever became of the locks, two workers come to be at one job only by such a claim. */
  lemma ExclusionStepIff(s: State, e: Event)
    requires Safe(s) && MutualExclusion(s) && Enabled(s, e)
    ensures MutualExclusion(Next(s, e)) <==> !Joins(s, e)
  {
    var s' := Next(s, e);
    OthersKeepPhase(s, e);
    if e.TryHit? && PhaseOf(s, e.thread).hits != [] && Fresh(s.index, PhaseOf(s, e.thread).hits[0]) {
      var t, h := e.thread, PhaseOf(s, e.thread).hits[0];
      assert h in PhaseOf(s, t).hits && Snapshot(s.index, h, PhaseOf(s, t).now);
      hide Safe;
      assert Runs(s', t, h.id);
      forall u | Runs(s, u, h.id) ensures u != t && Runs(s', u, h.id) {}
      forall a, b, k | Runs(s', a, k) && Runs(s', b, k) && !Joins(s, e) ensures a == b {
        assert a != t ==> Runs(s, a, k);
        assert b != t ==> Runs(s, b, k);
      }
    } else {
      hide Safe;
      FewerRunsStayExclusive(s, s');
    }
  }

  ghost predicate NoneJoins(states: seq<State>, events: seq<Event>, n: nat)
    requires |states| == |events| + 1 && n <= |events|
  {
    forall k :: 0 <= k < n ==> !Joins(states[k], events[k])
  }

  ghost predicate ExclusiveThrough(states: seq<State>, n: nat)
    requires n <= |states|
  {
    forall k :: 0 <= k < n ==> MutualExclusion(states[k])
  }

  /** So over whole runs no two workers are ever at one job if and only if no claim joins a worker. */
  lemma {:induction false} ExclusionIffNoneJoins(states: seq<State>, events: seq<Event>, n: nat)
    requires IsRun(states, events) && n <= |events|
    ensures ExclusiveThrough(states, n + 1) <==> NoneJoins(states, events, n)
  {
    if n == 0 {
      assert MutualExclusion(START);
    } else {
      ExclusionIffNoneJoins(states, events, n - 1);
      EveryRunIsSafe(states, events, n - 1);
      assert StepAt(states, events, n - 1);
      if MutualExclusion(states[n - 1]) { ExclusionStepIff(states[n - 1], events[n - 1]); }
      hide MutualExclusion, Joins, IsRun;
      assert ExclusiveThrough(states, n + 1) <==> ExclusiveThrough(states, n) && MutualExclusion(states[n]);
      assert NoneJoins(states, events, n) <==> NoneJoins(states, events, n - 1) && !Joins(states[n - 1], events[n - 1]);
      assert ExclusiveThrough(states, n) ==> MutualExclusion(states[n - 1]);
    }
  }

  /** On a shared clock, workers within their locks and submitters apart usurp nothing. */
  lemma DisciplineForbidsUsurping(s: State, e: Event)
    requires Guarded(s) && Timely(s) && Enabled(s, e)
    ensures !Usurps(s, e)
  {
    match e {
      case TryHit(t, _, _) =>
        var hits := PhaseOf(s, t).hits;
        if hits != [] && Fresh(s.index, hits[0]) {
          forall u ensures !Runs(s, u, hits[0].id) { NoClaimWhileExecuting(s, t, u); }
        }
      case EnqueueWrite(t) =>
        assert SeesFailed(s, t);
        forall u ensures s.submitters[t].Overwriting? ==> !Runs(s, u, s.submitters[t].job) { assert HoldsLock(s, u); }
      case _ =>
    }
  }

  lemma SeesFailedStep(s: State, e: Event, u: Thread)
    requires Guarded(s) && SubmittersApart(s) && Enabled(s, e)
    ensures SeesFailed(Next(s, e), u)
  {
    assert SeesFailed(s, u);
    match e {
      case TryHit(t, _, _) =>
        var Trying(now, hits) := PhaseOf(s, t);
        assert hits != [] ==> hits[0] in hits;
        assert hits != [] ==> Snapshot(s.index, hits[0], now);
      case Finish(t, _, _) => assert HoldsLock(s, t);
      case Fail(t, _, _) => assert HoldsLock(s, t);
      case EnqueueWrite(t) => assert SeesFailed(s, t);
      case _ =>
    }
  }

  lemma GuardedStep(s: State, e: Event)
    requires Guarded(s) && Timely(s) && SubmittersApart(s) && OnSharedClock(s, e) && Enabled(s, e)
    ensures Guarded(Next(s, e))
  {
    var s' := Next(s, e);
    DisciplineForbidsUsurping(s, e);
    LockedStepIff(s, e);
    forall u ensures SeesFailed(s', u) { SeesFailedStep(s, e, u); }
    OthersKeepPhase(s, e);
    hide Locked, Usurps, SeesFailed;
  }

  lemma {:induction false} EveryDisciplinedRunIsGuarded(states: seq<State>, events: seq<Event>, i: nat)
    requires IsRun(states, events) && Disciplined(states, events) && i < |states|
    ensures Guarded(states[i])
  {
    if i > 0 {
      EveryDisciplinedRunIsGuarded(states, events, i - 1);
      assert StepAt(states, events, i - 1) && OnSharedClock(states[i - 1], events[i - 1]);
      GuardedStep(states[i - 1], events[i - 1]);
    }
  }

  /** At most one worker is between claim and finish or fail of a job, in every state of a disciplined run. */
  lemma AtMostOneWorkerPerJob(states: seq<State>, events: seq<Event>, i: nat, t: Thread, u: Thread, j: JobId)
    requires IsRun(states, events) && Disciplined(states, events) && i < |states|
    requires Runs(states[i], t, j) && Runs(states[i], u, j)
    ensures t == u
  {
    EveryDisciplinedRunIsGuarded(states, events, i);
  }

  /** In a disciplined run a job that succeeded keeps its record for good: nothing claims, ends or overwrites it. */
  lemma {:induction false} SucceededIsFinal(states: seq<State>, events: seq<Event>, i: nat, k: nat, j: JobId)
    requires IsRun(states, events) && Disciplined(states, events) && i <= k < |states|
    requires j in states[i].index.docs && states[i].index.docs[j].record.status == Succeeded
    ensures j in states[k].index.docs && states[k].index.docs[j] == states[i].index.docs[j]
    decreases k - i
  {
    if i < k {
      SucceededIsFinal(states, events, i, k - 1, j);
      EveryDisciplinedRunIsGuarded(states, events, k - 1);
      assert StepAt(states, events, k - 1);
      SucceededStep(states[k - 1], events[k - 1], j);
    }
  }

  lemma SucceededStep(s: State, e: Event, j: JobId)
    requires Guarded(s) && Enabled(s, e)
    requires j in s.index.docs && s.index.docs[j].record.status == Succeeded
    ensures j in Next(s, e).index.docs && Next(s, e).index.docs[j] == s.index.docs[j]
  {
    match e {
      case TryHit(t, _, _) =>
        if PhaseOf(s, t).hits != [] {
          var h := PhaseOf(s, t).hits[0];
          assert h in PhaseOf(s, t).hits && Snapshot(s.index, h, PhaseOf(s, t).now);
        }
      case Finish(t, _, _) => assert HoldsLock(s, t);
      case Fail(t, _, _) => assert HoldsLock(s, t);
      case EnqueueWrite(t) => assert SeesFailed(s, t);
      case _ =>
    }
  }

  // ---------------------------------------------------------------- why the discipline is needed

  /** A run on a shared clock ending in `s`, timely throughout or with submitters apart throughout if asked. */
  ghost predicate RunTo(states: seq<State>, events: seq<Event>, s: State, timely: bool, apart: bool) {
    && IsRun(states, events) && states[|states| - 1] == s
    && (forall i :: 0 <= i < |events| ==> OnSharedClock(states[i], events[i]))
    && (timely ==> forall i :: 0 <= i < |states| ==> Timely(states[i]))
    && (apart ==> forall i :: 0 <= i < |states| ==> SubmittersApart(states[i]))
  }

  lemma Advance(states: seq<State>, events: seq<Event>, s: State, e: Event, timely: bool, apart: bool)
    returns (states': seq<State>, events': seq<Event>, s': State)
    requires RunTo(states, events, s, timely, apart) && Enabled(s, e) && OnSharedClock(s, e)
    requires timely ==> Timely(Next(s, e))
    requires apart ==> SubmittersApart(Next(s, e))
    ensures s' == Next(s, e) && RunTo(states', events', s', timely, apart)
  {
    s' := Next(s, e);
    states', events' := states + [s'], events + [e];
    forall i | 0 <= i < |events'| ensures StepAt(states', events', i) {
      if i < |events| { assert StepAt(states, events, i); }
    }
  }

  lemma OneHit(docs: map<JobId, Doc>, now: Time, h: Hit)
    requires docs.Keys == {h.id} && HitOf(docs, h) && Claimable(h.record, now)
    ensures IsSearchResult(docs, now, [h], 10)
  {
    assert h in [h] && Listed(h.id, [h]);
  }

  /** Submit job 1 and let worker 1 claim it. */
  lemma SubmitAndClaim(timely: bool, apart: bool) returns (states: seq<State>, events: seq<Event>, s: State)
    ensures var r := Submission(0, "");
            s.index == Index(map[1 := Doc(1, ClaimUpdate(r, r, 7, 0, 10))], 2)
    ensures s.clock == 0 && s.workers == map[1 := Executing(1, 10)] && s.submitters == map[]
    ensures RunTo(states, events, s, timely, apart)
  {
    var r := Submission(0, "");
    states, events, s := [START], [], START;
    hide RunTo;
    assert RunTo(states, events, s, timely, apart) by { RunToStart(timely, apart); }
    states, events, s := Advance(states, events, s, EnqueueRead(9, 1, r), timely, apart);
    states, events, s := Advance(states, events, s, EnqueueWrite(9), timely, apart);
    OneHit(s.index.docs, 0, Hit(1, 0, r));
    states, events, s := Advance(states, events, s, Search(1, 0, [Hit(1, 0, r)]), timely, apart);
    states, events, s := Advance(states, events, s, TryHit(1, 7, 10), timely, apart);
  }

  lemma RunToStart(timely: bool, apart: bool)
    ensures RunTo([START], [], START, timely, apart)
  {}

  /**
   * A worker that outlives its lock: with a shared clock and submitters apart, two workers end
   * up executing one job.
   */
  lemma SlowWorkerBreaksExclusion() returns (states: seq<State>, events: seq<Event>, s: State)
    ensures RunTo(states, events, s, false, true) && !MutualExclusion(s)
  {
    hide RunTo;
    states, events, s := SubmitAndClaim(false, true);
    states, events, s := Advance(states, events, s, Tick(11), false, true);
    var h := Hit(1, 1, s.index.docs[1].record);
    OneHit(s.index.docs, 11, h);
    states, events, s := Advance(states, events, s, Search(2, 11, [h]), false, true);
    states, events, s := Advance(states, events, s, TryHit(2, 8, 10), false, true);
    assert Runs(s, 1, 1) && Runs(s, 2, 1);
  }

  /** Two submitters both read the failed job before either overwrites it. */
  lemma TwoSubmittersRead() returns (states: seq<State>, events: seq<Event>, s: State)
    ensures var r := Submission(0, "");
            s.index.docs.Keys == {1} && s.submitters == map[8 := Overwriting(1, r), 9 := Overwriting(1, r)]
    ensures s.clock == 0 && s.workers == map[1 := Idle]
    ensures RunTo(states, events, s, true, false)
  {
    hide RunTo;
    var r := Submission(0, "");
    states, events, s := SubmitAndClaim(true, false);
    states, events, s := Advance(states, events, s, Fail(1, "", 0), true, false);
    states, events, s := Advance(states, events, s, EnqueueRead(8, 1, r), true, false);
    states, events, s := Advance(states, events, s, EnqueueRead(9, 1, r), true, false);
  }

  /** The first overwrite lands and its job is claimed at once, with the second overwrite still pending. */
  lemma RacingSubmitters() returns (states: seq<State>, events: seq<Event>, s: State)
    ensures var r := Submission(0, "");
            s.index.docs.Keys == {1} && s.submitters == map[9 := Overwriting(1, r)]
    ensures s.clock == 0 && s.workers == map[1 := Executing(1, 10)]
    ensures RunTo(states, events, s, true, false)
  {
    hide RunTo;
    states, events, s := TwoSubmittersRead();
    states, events, s := Advance(states, events, s, EnqueueWrite(8), true, false);
    var h := Hit(1, s.index.docs[1].seqNo, s.index.docs[1].record);
    OneHit(s.index.docs, 0, h);
    states, events, s := Advance(states, events, s, Search(1, 0, [h]), true, false);
    states, events, s := Advance(states, events, s, TryHit(1, 7, 10), true, false);
  }

  /**
   * The second overwrite resets a job that is being executed, and another worker claims it:
   * exclusion is lost although every worker is within its lock.
   */
  lemma RacingSubmittersBreakExclusion() returns (states: seq<State>, events: seq<Event>, s: State)
    ensures RunTo(states, events, s, true, false) && !MutualExclusion(s)
  {
    hide RunTo;
    states, events, s := RacingSubmitters();
    states, events, s := Advance(states, events, s, EnqueueWrite(9), true, false);
    var h := Hit(1, s.index.docs[1].seqNo, s.index.docs[1].record);
    OneHit(s.index.docs, 0, h);
    states, events, s := Advance(states, events, s, Search(2, 0, [h]), true, false);
    states, events, s := Advance(states, events, s, TryHit(2, 8, 10), true, false);
    assert Runs(s, 1, 1) && Runs(s, 2, 1);
  }
}
