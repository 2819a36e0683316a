/**
 * Symbols whose FQN is defined by several files.  A symbol id depends on the path only without
 * its extension (apps/chunking/chunk_builder.py `_to_chunk`, `_to_symbol`), so two files can write
 * one symbol document; this module says exactly when a job loses a symbol the tree still defines.
 */
module SharedSymbols {
  import opened Common
  import opened SearchIndex
  import opened FileIndex
  import opened IncrementalIndexing
  import opened TreeProjection

  /** Once `id` is written, its document is one of those written, or a file lost it whose last relevant write is a delete. */
  lemma {:induction false} KeptOrDeletedLast(ix: Index, ops: seq<Op>, id: DocId)
    requires exists d :: Put(id, d) in ops
    ensures var r := Lookup(ApplyAll(ix, ops), id);
            || (r.Some? && Put(id, r.value) in ops)
            || exists d, q :: Put(id, d) in ops && Matches(d, q)
                              && LastRelevant(ops, id, q).Some? && LastRelevant(ops, id, q).value.Delete?
  {
    var init, o := ops[..|ops| - 1], ops[|ops| - 1];
    assert ops == init + [o];
    LookupApply(ApplyAll(ix, init), o, id);
    if !(o.Put? && o.id == id) {
      var d0 :| Put(id, d0) in ops;
      assert Put(id, d0) in init;
      KeptOrDeletedLast(ix, init, id);
      var r := Lookup(ApplyAll(ix, init), id);
      if r.Some? && Put(id, r.value) in init {
        if Removes(o, id, r.value) {
          assert Put(id, r.value) in ops && Matches(r.value, o.path) && LastRelevant(ops, id, o.path) == Some(o);
        }
      } else {
        var d, q :| Put(id, d) in init && Matches(d, q)
                    && LastRelevant(init, id, q).Some? && LastRelevant(init, id, q).value.Delete?;
        assert Put(id, d) in ops && LastRelevant(ops, id, q).Some? && LastRelevant(ops, id, q).value.Delete?;
      }
    }
  }

  lemma PartLastRelevantIsPut(pl: Pipeline, path: Path, content: string, id: DocId, owner: Path)
    requires owner == path ==> Target(pl, path, content, id).Some?
    ensures var last := LastRelevant(IndexFileOps(pl, path, content), id, owner); last.Some? ==> last.value.Put?
  {
    IndexFileLastRelevant(pl, path, content, id, owner);
    if owner != path {
      var ops := IndexFileOps(pl, path, content);
      if LastRelevant(ops, id, owner).Some? {
        LastRelevantIn(ops, id, owner);
        IndexFileOpsCases(pl, path, content, LastRelevant(ops, id, owner).value);
      }
    }
  }

  lemma ExecutionEndsWithPut(job: Job, ops: seq<Op>, id: DocId, q: Path)
    requires IsExecution(job, ops) && JobOwner(job, q, id)
    ensures var last := LastRelevant(ops, id, q); last.Some? && last.value.Put?
  {
    var pool :| IsExecutionBy(job, ops, pool);
    var parts := Parts(job);
    hide Parts, Target, DeletePhase, IndexFileOps, LastRelevant, Indexes;
    forall k | 0 <= k < |parts|
      ensures LastRelevant(parts[k], id, q).Some? ==> LastRelevant(parts[k], id, q).value.Put?
    {
      PartOf(job, k);
      var p := ToIndex(job.changes, job.tree)[k];
      PartLastRelevantIsPut(job.pl, p, job.tree[p], id, q);
    }
    var k := PartFor(job, q);
    IndexFileLastRelevant(job.pl, q, job.tree[q], id, q);
    AgreedLastRelevant(pool, parts, id, q, (iset o: Op | o.Put?), k);
    LastRelevantConcat(DeletePhase(job), Untag(pool), id, q);
  }

  lemma TraceEndsWithPut(job: Job, ops: seq<Op>, id: DocId, q: Path)
    requires IsJobTrace(job, ops) && JobOwner(job, q, id)
    ensures var last := LastRelevant(ops, id, q); last.Some? && last.value.Put?
  {
    var leftovers, trace, executions :| IsJobTraceOf(job, ops, leftovers, trace, executions);
    hide LastRelevant, JobOwner;
    forall k | 0 <= k < |executions|
      ensures LastRelevant(executions[k], id, q).Some? && LastRelevant(executions[k], id, q).value.Put?
    {
      ExecutionEndsWithPut(job, executions[k], id, q);
    }
    AgreedLastRelevant(trace, executions, id, q, (iset o: Op | o.Put?), 0);
    LastRelevantConcat(leftovers, Untag(trace), id, q);
  }

  lemma TracePutsAreOwned(job: Job, ops: seq<Op>, id: DocId, d: Doc)
    requires IsJobTrace(job, ops) && Put(id, d) in ops
    ensures exists q :: JobOwner(job, q, id) && forall p :: Matches(d, p) <==> p == q
  {
    var leftovers, trace, executions :| IsJobTraceOf(job, ops, leftovers, trace, executions);
    JobTraceOps(job, leftovers, trace, executions, ops);
    assert IsJobOp(job, Put(id, d));
    var q :| WritesFor(job, q, Put(id, d));
    FileWritesAreOwn(job.pl, q, job.tree[q], Put(id, d));
    TargetIsWritten(job.pl, q, job.tree[q], id);
    assert JobOwner(job, q, id);
  }

  /** With any number of files writing `id`, a job leaves a document there exactly when its outcome has one. */
  lemma PresenceOfSharedDocument(job: Job, ops: seq<Op>, ix: Index, id: DocId)
    requires IsJobTrace(job, ops)
    ensures Lookup(ApplyAll(ix, ops), id).Some? <==> Outcome(job, Lookup(ix, id), id).Some?
  {
    if q :| JobOwner(job, q, id) {
      TraceEndsWithPut(job, ops, id, q);
      LastRelevantIn(ops, id, q);
      assert LastRelevant(ops, id, q).value == Put(id, LastRelevant(ops, id, q).value.doc);
      KeptOrDeletedLast(ix, ops, id);
      if d, p :| Put(id, d) in ops && Matches(d, p)
                 && LastRelevant(ops, id, p).Some? && LastRelevant(ops, id, p).value.Delete? {
        TracePutsAreOwned(job, ops, id, d);
        TraceEndsWithPut(job, ops, id, p);
        assert false;
      }
    } else {
      JobTraceOutcome(job, ops, ix, id);
    }
  }

  // ---------------------------------------------------------------- which definition is stored

  /** The document last put at `id`. */
  function LastPut(ops: seq<Op>, id: DocId): Option<Doc> {
    if ops == [] then None
    else if ops[|ops| - 1].Put? && ops[|ops| - 1].id == id then Some(ops[|ops| - 1].doc)
    else LastPut(ops[..|ops| - 1], id)
  }

  lemma {:induction false} LastPutConcat(a: seq<Op>, b: seq<Op>, id: DocId)
    ensures LastPut(a + b, id) == if LastPut(b, id).Some? then LastPut(b, id) else LastPut(a, id)
  {
    if b == [] {
      assert a + b == a;
    } else {
      LastPutConcat(a, b[..|b| - 1], id);
      assert (a + b)[..|a + b| - 1] == a + b[..|b| - 1];
    }
  }

  /** After a put the document is the one last put, or gone. */
  lemma {:induction false} LastPutOrGone(ix: Index, ops: seq<Op>, id: DocId)
    requires LastPut(ops, id).Some?
    ensures var r := Lookup(ApplyAll(ix, ops), id); r.None? || r == LastPut(ops, id)
  {
    var init, o := ops[..|ops| - 1], ops[|ops| - 1];
    LookupApply(ApplyAll(ix, init), o, id);
    if !(o.Put? && o.id == id) { LastPutOrGone(ix, init, id); }
  }

  lemma {:induction false} LastPutOfInterleaving(trace: seq<Tagged>, n: nat, id: DocId)
    requires forall i :: 0 <= i < |trace| ==> trace[i].agent < n
    ensures var last := LastPut(Untag(trace), id);
            if last.Some? then exists k :: 0 <= k < n && LastPut(By(trace, k), id) == last
            else forall k :: 0 <= k < n ==> LastPut(By(trace, k), id).None?
  {
    if trace != [] {
      var init, last := trace[..|trace| - 1], trace[|trace| - 1];
      assert Untag(trace)[..|trace| - 1] == Untag(init) && Untag(trace)[|trace| - 1] == last.op;
      LastPutOfInterleaving(init, n, id);
      forall k | 0 <= k < n
        ensures LastPut(By(trace, k), id)
             == if k == last.agent && last.op.Put? && last.op.id == id then Some(last.op.doc) else LastPut(By(init, k), id)
      {
        if k == last.agent { assert By(trace, k)[..|By(trace, k)| - 1] == By(init, k); }
      }
      if last.op.Put? && last.op.id == id {
        assert LastPut(By(trace, last.agent), id) == LastPut(Untag(trace), id);
      } else if LastPut(Untag(init), id).Some? {
        var k :| 0 <= k < n && LastPut(By(init, k), id) == LastPut(Untag(init), id);
        assert LastPut(By(trace, k), id) == LastPut(Untag(trace), id);
      }
    }
  }

  lemma {:induction false} LastPutOfDeletes(ops: seq<Op>, id: DocId)
    requires forall o :: o in ops ==> o.Delete?
    ensures LastPut(ops, id).None?
  {
    if ops != [] {
      assert ops[|ops| - 1] in ops;
      LastPutOfDeletes(ops[..|ops| - 1], id);
    }
  }

  lemma {:induction false} LastPutOfPuts(ops: seq<Op>, id: DocId, path: Path)
    requires forall o :: o in ops ==> o.Put?
    ensures LastRelevant(ops, id, path) == if LastPut(ops, id).Some? then Some(Put(id, LastPut(ops, id).value)) else None
  {
    if ops != [] {
      assert ops[|ops| - 1] in ops;
      LastPutOfPuts(ops[..|ops| - 1], id, path);
    }
  }

  /** The document a file puts last is its target. */
  lemma LastPutOfFile(pl: Pipeline, path: Path, content: string, id: DocId)
    ensures LastPut(IndexFileOps(pl, path, content), id) == Target(pl, path, content, id)
  {
    var deletes, writes := DeleteFileOps(pl.scope, path), FileWrites(pl, path, content);
    LastPutOfDeletes(deletes, id);
    if pl.shouldIndex(path, content) {
      LastPutConcat(deletes, writes, id);
      forall o | o in writes ensures o.Put? { FileWritesAreOwn(pl, path, content, o); }
      LastPutOfPuts(writes, id, path);
    }
  }

  /** A definition that some file indexed by the job gives. */
  ghost predicate FromJob(job: Job, d: Option<Doc>, id: DocId) {
    exists q :: JobOwner(job, q, id) && d == Target(job.pl, q, job.tree[q], id)
  }

  lemma ExecutionLastPut(job: Job, ops: seq<Op>, id: DocId, owner: Path)
    requires IsExecution(job, ops) && JobOwner(job, owner, id)
    ensures LastPut(ops, id).Some? && FromJob(job, LastPut(ops, id), id)
  {
    var pool :| IsExecutionBy(job, ops, pool);
    var parts := Parts(job);
    hide Parts, Target, DeletePhase, IndexFileOps, LastPut, Indexes, By, Untag;
    LastPutConcat(DeletePhase(job), Untag(pool), id);
    LastPutOfInterleaving(pool, |parts|, id);
    var k := PartFor(job, owner);
    LastPutOfFile(job.pl, owner, job.tree[owner], id);
    assert By(pool, k) == parts[k];
    var last := LastPut(Untag(pool), id);
    var m :| 0 <= m < |parts| && LastPut(By(pool, m), id) == last;
    PartOf(job, m);
    var q := ToIndex(job.changes, job.tree)[m];
    assert By(pool, m) == parts[m];
    LastPutOfFile(job.pl, q, job.tree[q], id);
    assert JobOwner(job, q, id);
  }

  lemma TraceLastPut(job: Job, ops: seq<Op>, id: DocId, owner: Path)
    requires IsJobTrace(job, ops) && JobOwner(job, owner, id)
    ensures LastPut(ops, id).Some? && FromJob(job, LastPut(ops, id), id)
  {
    var leftovers, trace, executions :| IsJobTraceOf(job, ops, leftovers, trace, executions);
    hide LastPut, JobOwner, FromJob, IsExecution, By, Untag;
    forall k | 0 <= k < |executions|
      ensures LastPut(executions[k], id).Some? && FromJob(job, LastPut(executions[k], id), id)
    {
      ExecutionLastPut(job, executions[k], id, owner);
    }
    LastPutConcat(leftovers, Untag(trace), id);
    LastPutOfInterleaving(trace, |executions|, id);
    assert By(trace, 0) == executions[0];
    var m :| 0 <= m < |executions| && LastPut(By(trace, m), id) == LastPut(Untag(trace), id);
    assert By(trace, m) == executions[m];
  }

  /** However many files write `id`, what a job leaves there is the definition one of them gives. */
  lemma SharedDocumentIsSomeTarget(job: Job, ops: seq<Op>, ix: Index, id: DocId, owner: Path)
    requires IsJobTrace(job, ops) && JobOwner(job, owner, id)
    ensures FromJob(job, Lookup(ApplyAll(ix, ops), id), id)
  {
    PresenceOfSharedDocument(job, ops, ix, id);
    TraceLastPut(job, ops, id, owner);
    LastPutOrGone(ix, ops, id);
  }

  /** The stored document is a definition some file of the tree gives, and there is none only if no file gives one. */
  ghost predicate HoldsSomeDefinition(stored: Option<Doc>, pl: Pipeline, tree: Tree, id: DocId) {
    if stored.None? then forall q :: !Owner(pl, tree, q, id)
    else exists q :: Owner(pl, tree, q, id) && stored == Target(pl, q, tree[q], id)
  }

  /** No file of the new tree defines `id`, or the job indexes one that does, or it leaves the stored definition alone. */
  ghost predicate KeepsDefinition(job: Job, stored: Option<Doc>, id: DocId) {
    || (forall q :: !Owner(job.pl, job.tree, q, id))
    || (exists q :: JobOwner(job, q, id))
    || (stored.Some? && !Touches(job, stored.value.path))
  }

  /** What the job leaves is a definition of the new tree, or nothing. */
  lemma RemainsADefinition(job: Job, oldTree: Tree, ops: seq<Op>, ix: Index, id: DocId)
    requires IsJobTrace(job, ops) && Adequate(job, oldTree)
    requires HoldsSomeDefinition(Lookup(ix, id), job.pl, oldTree, id)
    ensures var after := Lookup(ApplyAll(ix, ops), id);
            after.Some? ==> exists q :: Owner(job.pl, job.tree, q, id) && after == Target(job.pl, q, job.tree[q], id)
  {
    if owner :| JobOwner(job, owner, id) {
      SharedDocumentIsSomeTarget(job, ops, ix, id, owner);
      var q :| JobOwner(job, q, id) && Lookup(ApplyAll(ix, ops), id) == Target(job.pl, q, job.tree[q], id);
      assert Owner(job.pl, job.tree, q, id);
    } else {
      JobTraceOutcome(job, ops, ix, id);
      if id in ix {
        var p :| Owner(job.pl, oldTree, p, id) && Lookup(ix, id) == Target(job.pl, p, oldTree[p], id);
        OwnerPath(job.pl, oldTree, p, id);
        assert DealsWith(job, oldTree, p);
        if !Touches(job, p) { assert Owner(job.pl, job.tree, p, id); }
      }
    }
  }

  /** Whether something remains: exactly if the tree no longer defines it, or the definition is kept. */
  lemma SomethingRemainsIff(job: Job, oldTree: Tree, ops: seq<Op>, ix: Index, id: DocId)
    requires IsJobTrace(job, ops) && Adequate(job, oldTree)
    requires HoldsSomeDefinition(Lookup(ix, id), job.pl, oldTree, id)
    ensures Lookup(ApplyAll(ix, ops), id).Some? || (forall q :: !Owner(job.pl, job.tree, q, id))
       <==> KeepsDefinition(job, Lookup(ix, id), id)
  {
    PresenceOfSharedDocument(job, ops, ix, id);
    if id in ix {
      var p :| Owner(job.pl, oldTree, p, id) && Lookup(ix, id) == Target(job.pl, p, oldTree[p], id);
      OwnerPath(job.pl, oldTree, p, id);
      assert Matches(ix[id], ix[id].path);
    }
  }

  /**
   * The exact condition under which a job keeps a symbol that any number of files define: the index
   * goes on holding a definition the new tree gives if and only if the new tree gives none, or the
   * job indexes a file that does, or it leaves the file alone whose definition is stored.
   */
  lemma SymbolKeptIff(job: Job, oldTree: Tree, ops: seq<Op>, ix: Index, id: DocId)
    requires IsJobTrace(job, ops) && Adequate(job, oldTree)
    requires HoldsSomeDefinition(Lookup(ix, id), job.pl, oldTree, id)
    ensures HoldsSomeDefinition(Lookup(ApplyAll(ix, ops), id), job.pl, job.tree, id)
       <==> KeepsDefinition(job, Lookup(ix, id), id)
  {
    RemainsADefinition(job, oldTree, ops, ix, id);
    SomethingRemainsIff(job, oldTree, ops, ix, id);
    hide IsJobTrace, Adequate, KeepsDefinition, Owner;
  }

  // ---------------------------------------------------------------- sequences of pushes

  ghost predicate HoldsThroughout(pl: Pipeline, first: Tree, pushes: seq<Push>, ix: Index, id: DocId) {
    && HoldsSomeDefinition(Lookup(AfterPushes(ix, pushes), id), pl, TreeAfter(first, pushes), id)
    && (pushes != [] ==> HoldsThroughout(pl, first, pushes[..|pushes| - 1], ix, id))
  }

  ghost predicate KeptThroughout(pushes: seq<Push>, ix: Index, id: DocId) {
    pushes != [] ==>
      var init, last := pushes[..|pushes| - 1], pushes[|pushes| - 1];
      KeptThroughout(init, ix, id) && KeepsDefinition(last.job, Lookup(AfterPushes(ix, init), id), id)
  }

  /** Over any sequence of pushes the index holds a definition of each tree in turn exactly if every push keeps one. */
  lemma {:induction false} PushesKeepSymbolIff(pl: Pipeline, first: Tree, pushes: seq<Push>, ix: Index, id: DocId)
    requires PushHistory(pl, first, pushes) && HoldsSomeDefinition(Lookup(ix, id), pl, first, id)
    ensures HoldsThroughout(pl, first, pushes, ix, id) <==> KeptThroughout(pushes, ix, id)
  {
    hide HoldsSomeDefinition, KeepsDefinition, ApplyAll, IsJobTrace, Adequate;
    if pushes != [] {
      var init, last := pushes[..|pushes| - 1], pushes[|pushes| - 1];
      PushesKeepSymbolIff(pl, first, init, ix, id);
      if HoldsThroughout(pl, first, init, ix, id) {
        SymbolKeptIff(last.job, TreeAfter(first, init), last.ops, AfterPushes(ix, init), id);
      }
    }
  }

  // ---------------------------------------------------------------- a symbol that is lost

  const BOTH_FILES: Tree := map["tool.py" := "py", "tool.ts" := "ts"]
  const ONE_FILE: Tree := map["tool.py" := "py"]
  const SHARED_RAW := RawChunk(1, 1, Some("f"), None, [])

  /** A pipeline under which `tool.py` and `tool.ts` both define the FQN `repo.tool.f`. */
  function SharedPipeline(scope: Scope): Pipeline {
    Pipeline(scope, "repo", (_, _) => true, (_, _) => [SHARED_RAW], _ => "tool", (_, _, _) => Redaction("f", 0),
             _ => Embedding([], []), true, false)
  }

  function SharedId(scope: Scope): DocId {
    DocId(scope, SymbolKey(FqnOf(SharedPipeline(scope), "tool.py", SHARED_RAW)))
  }

  /** The push that deletes `tool.ts`. */
  function DeletingJob(scope: Scope): Job {
    Job(SharedPipeline(scope), [Change("tool.ts", "tool.ts", true, false)], ONE_FILE)
  }

  lemma SharedDefinition(scope: Scope, path: Path, content: string)
    ensures Target(SharedPipeline(scope), path, content, SharedId(scope)).Some?
    ensures Target(SharedPipeline(scope), path, content, SharedId(scope)).value.path == path
  {
    var pl := SharedPipeline(scope);
    WritesExact(pl, path, content, [SHARED_RAW], {});
    assert SHARED_RAW in [SHARED_RAW];
    assert SymbolWrite(pl, path, content, SHARED_RAW) in FileWrites(pl, path, content);
    TargetIsWritten(pl, path, content, SharedId(scope));
    TargetOwned(pl, path, content, SharedId(scope));
    assert Matches(Target(pl, path, content, SharedId(scope)).value, Target(pl, path, content, SharedId(scope)).value.path);
  }

  lemma DeletingPlan(scope: Scope)
    ensures Deletes(DeletingJob(scope), "tool.ts") && !Deletes(DeletingJob(scope), "tool.py")
    ensures forall p :: !Indexes(DeletingJob(scope), p)
  {
    var job := DeletingJob(scope);
    assert job.changes[0] in job.changes;
    hide SharedPipeline;
    assert forall c :: c in job.changes ==> c == Change("tool.ts", "tool.ts", true, false);
    assert |"tool.ts"| == 7 && "tool.ts"[5] != "tool.py"[5];
  }

  /** A job that indexes nothing is executed by its deletes alone. */
  lemma DeletesOnly(job: Job)
    requires forall p :: !Indexes(job, p)
    ensures IsExecution(job, DeletePhase(job))
  {
    PlanExact(job);
    hide DeletePhase, Indexes, Deletes;
    var toIndex := ToIndex(job.changes, job.tree);
    assert forall k :: 0 <= k < |toIndex| ==> toIndex[k] in toIndex;
    assert Untag([]) == [] && Interleaves([], Parts(job));
    assert DeletePhase(job) + [] == DeletePhase(job);
    assert IsExecutionBy(job, DeletePhase(job), []);
  }

  lemma DeletingIsComplete(scope: Scope)
    ensures CompleteDiff(DeletingJob(scope), BOTH_FILES)
  {
    DeletingPlan(scope);
    hide Indexes, Deletes, SharedPipeline;
    var job := DeletingJob(scope);
    assert forall p :: p in job.tree <==> p == "tool.py";
    assert forall p :: p in BOTH_FILES <==> p == "tool.py" || p == "tool.ts";
    assert |"tool.ts"| == 7 && "tool.ts"[5] != "tool.py"[5];
  }

  /** The index holds the definition of `tool.ts`, which the push deletes, and nothing makes up for it. */
  lemma SharedDefinitionNotKept(scope: Scope) returns (d: Doc)
    ensures var job, id := DeletingJob(scope), SharedId(scope);
            && HoldsSomeDefinition(Some(d), job.pl, BOTH_FILES, id)
            && (exists q :: Owner(job.pl, job.tree, q, id))
            && !KeepsDefinition(job, Some(d), id)
  {
    var job, id := DeletingJob(scope), SharedId(scope);
    SharedDefinition(scope, "tool.ts", "ts");
    SharedDefinition(scope, "tool.py", "py");
    DeletingPlan(scope);
    assert Touches(job, "tool.ts");
    hide Target, Touches, Indexes, Deletes;
    d := Target(job.pl, "tool.ts", "ts", id).value;
    assert BOTH_FILES["tool.ts"] == "ts" && job.tree["tool.py"] == "py";
    assert Owner(job.pl, BOTH_FILES, "tool.ts", id) && Owner(job.pl, job.tree, "tool.py", id);
  }

  /** Deleting one of two files that define an FQN loses the symbol the other still defines. */
  lemma SharedFqnLosesSymbol(scope: Scope) returns (ix: Index, ops: seq<Op>)
    ensures var job, id := DeletingJob(scope), SharedId(scope);
            && IsExecution(job, ops) && CompleteDiff(job, BOTH_FILES)
            && HoldsSomeDefinition(Lookup(ix, id), job.pl, BOTH_FILES, id)
            && (exists q :: Owner(job.pl, job.tree, q, id))
            && !KeepsDefinition(job, Lookup(ix, id), id) && Lookup(ApplyAll(ix, ops), id).None?
  {
    var job, id := DeletingJob(scope), SharedId(scope);
    DeletingPlan(scope);
    DeletesOnly(job);
    DeletingIsComplete(scope);
    CompleteDiffIsAdequate(job, BOTH_FILES);
    hide *;
    var d := SharedDefinitionNotKept(scope);
    ix, ops := map[id := d], DeletePhase(job);
    StoredAlone(id, d);
    ExecutionIsTrace(job, ops);
    SomethingRemainsIff(job, BOTH_FILES, ops, ix, id);
  }

  lemma StoredAlone(id: DocId, d: Doc)
    ensures Lookup(map[id := d], id) == Some(d)
  {}
}
