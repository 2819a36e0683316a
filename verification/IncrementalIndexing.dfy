/**
 * Incremental indexing (apps/indexing/indexing_service.py `incremental_index_project`) as
 * convergence of the search index to the documents of the new tree, for any order of the
 * changes, any interleaving of the file workers and any re-execution of the job.
 */
module IncrementalIndexing {
  import opened Common
  import opened SearchIndex
  import opened FileIndex

  /** The files of a checked-out tree. */
  type Tree = map<Path, string>

  datatype Change = Change(oldPath: Path, newPath: Path, deleted: bool, renamed: bool)

  /** One incremental job: the pipeline, the tree it checks out and the changes it is given. */
  datatype Job = Job(pl: Pipeline, changes: seq<Change>, tree: Tree)

  // ---------------------------------------------------------------- the plan of a job

  /** What a change deletes at once: its file, or the new path if it is missing from the tree. */
  function DeletedAtOnce(c: Change, tree: Tree): seq<Path> {
    if c.deleted then [c.oldPath] else if c.newPath in tree then [] else [c.newPath]
  }

  function MovedFrom(c: Change): seq<Path> {
    if !c.deleted && c.renamed then [c.oldPath] else []
  }

  function IndexedBy(c: Change, tree: Tree): seq<Path> {
    if !c.deleted && c.newPath in tree then [c.newPath] else []
  }

  /** The files deleted while the changes are read. */
  function FirstDeleted(changes: seq<Change>, tree: Tree): seq<Path> {
    if changes == [] then []
    else FirstDeleted(changes[..|changes| - 1], tree) + DeletedAtOnce(changes[|changes| - 1], tree)
  }

  function RenamedAway(changes: seq<Change>): seq<Path> {
    if changes == [] then [] else RenamedAway(changes[..|changes| - 1]) + MovedFrom(changes[|changes| - 1])
  }

  function ToIndex(changes: seq<Change>, tree: Tree): seq<Path> {
    if changes == [] then [] else ToIndex(changes[..|changes| - 1], tree) + IndexedBy(changes[|changes| - 1], tree)
  }

  predicate Deletes(job: Job, p: Path) {
    exists c :: c in job.changes &&
      ((c.deleted && p == c.oldPath) || (!c.deleted && c.renamed && p == c.oldPath)
       || (!c.deleted && c.newPath !in job.tree && p == c.newPath))
  }

  predicate Indexes(job: Job, p: Path) {
    p in job.tree && exists c :: c in job.changes && !c.deleted && p == c.newPath
  }

  predicate Touches(job: Job, p: Path) {
    Deletes(job, p) || Indexes(job, p)
  }

  lemma {:induction false} PlanExact(job: Job)
    ensures forall p :: Deletes(job, p) <==> p in FirstDeleted(job.changes, job.tree) || p in RenamedAway(job.changes)
    ensures forall p :: Indexes(job, p) <==> p in ToIndex(job.changes, job.tree)
    decreases |job.changes|
  {
    var changes := job.changes;
    if changes != [] {
      var init, last := job.(changes := changes[..|changes| - 1]), changes[|changes| - 1];
      assert changes == init.changes + [last];
      PlanExact(init);
      assert forall c :: c in changes <==> c in init.changes || c == last;
      forall p ensures Deletes(job, p) <==> Deletes(init, p) || p in DeletedAtOnce(last, job.tree) || p in MovedFrom(last) {
        assert last in changes;
      }
      forall p ensures Indexes(job, p) <==> Indexes(init, p) || p in IndexedBy(last, job.tree) {
        assert last in changes;
      }
    }
  }

  function DeleteAll(scope: Scope, paths: seq<Path>): seq<Op> {
    if paths == [] then []
    else DeleteAll(scope, paths[..|paths| - 1]) + DeleteFileOps(scope, paths[|paths| - 1])
  }

  /** Everything a job deletes before it indexes its first file. */
  function DeletePhase(job: Job): seq<Op> {
    DeleteAll(job.pl.scope, FirstDeleted(job.changes, job.tree))
    + DeleteAll(job.pl.scope, SortedNames(RenamedAway(job.changes)))
  }

  function IndexParts(job: Job, paths: seq<Path>): seq<seq<Op>>
    requires forall p :: p in paths ==> p in job.tree
  {
    seq(|paths|, i requires 0 <= i < |paths| => IndexFileOps(job.pl, paths[i], job.tree[paths[i]]))
  }

  function Parts(job: Job): seq<seq<Op>> {
    PlanExact(job);
    IndexParts(job, ToIndex(job.changes, job.tree))
  }

  /** A complete execution: the delete phase, then the files in any interleaving of the worker pool. */
  ghost predicate IsExecution(job: Job, ops: seq<Op>) {
    exists pool :: IsExecutionBy(job, ops, pool)
  }

  ghost predicate IsExecutionBy(job: Job, ops: seq<Op>, pool: seq<Tagged>) {
    Interleaves(pool, Parts(job)) && ops == DeletePhase(job) + Untag(pool)
  }

  /** A write that some execution of the job may issue. */
  ghost predicate IsJobOp(job: Job, o: Op) {
    match o
    case Delete(_, scope, p) => scope == job.pl.scope && Touches(job, p)
    case Put(_, _) => exists q :: WritesFor(job, q, o)
  }

  ghost predicate WritesFor(job: Job, q: Path, o: Op) {
    Indexes(job, q) && job.pl.shouldIndex(q, job.tree[q]) && o in FileWrites(job.pl, q, job.tree[q])
  }

  lemma {:induction false} DeleteAllExact(scope: Scope, paths: seq<Path>, o: Op)
    ensures o in DeleteAll(scope, paths) <==> o.Delete? && o.scope == scope && o.path in paths
  {
    if paths != [] {
      DeleteAllExact(scope, paths[..|paths| - 1], o);
      assert paths == paths[..|paths| - 1] + [paths[|paths| - 1]];
      match o {
        case Delete(Files, _, _) =>
        case Delete(Chunks, _, _) =>
        case Delete(Symbols, _, _) =>
        case Delete(Edges, _, _) =>
        case Put(_, _) =>
      }
    }
  }

  lemma DeletePhaseExact(job: Job, o: Op)
    ensures o in DeletePhase(job) <==> o.Delete? && o.scope == job.pl.scope && Deletes(job, o.path)
  {
    PlanExact(job);
    DeleteAllExact(job.pl.scope, FirstDeleted(job.changes, job.tree), o);
    DeleteAllExact(job.pl.scope, SortedNames(RenamedAway(job.changes)), o);
  }

  lemma PartsAreJobOps(job: Job, k: nat, o: Op)
    requires k < |Parts(job)| && o in Parts(job)[k]
    ensures IsJobOp(job, o)
  {
    PlanExact(job);
    var q := ToIndex(job.changes, job.tree)[k];
    assert Indexes(job, q);
    IndexFileOpsCases(job.pl, q, job.tree[q], o);
    hide FileWrites;
    if o.Put? { assert WritesFor(job, q, o); }
  }

  /** An execution issues only writes of its job, and every delete of a touched file. */
  lemma ExecutionOps(job: Job, ops: seq<Op>)
    requires IsExecution(job, ops)
    ensures forall o :: o in ops ==> IsJobOp(job, o)
    ensures forall kind, p :: Touches(job, p) ==> Delete(kind, job.pl.scope, p) in ops
  {
    var pool :| IsExecutionBy(job, ops, pool);
    hide IsJobOp, DeletePhase, Parts, Deletes, Indexes;
    forall o | o in ops ensures IsJobOp(job, o) {
      if o in DeletePhase(job) { DeletePhaseOps(job, o); }
      InterleavedOps(pool, Parts(job), o);
      if k :| 0 <= k < |Parts(job)| && o in Parts(job)[k] { PartsAreJobOps(job, k, o); }
    }
    forall kind, p | Touches(job, p) ensures Delete(kind, job.pl.scope, p) in ops {
      var o := Delete(kind, job.pl.scope, p);
      DeletePhaseExact(job, o);
      if Indexes(job, p) {
        var k := PartFor(job, p);
        IndexingDeletes(job.pl, p, job.tree[p], kind);
        InterleavedOps(pool, Parts(job), o);
      }
    }
  }

  lemma DeletePhaseOps(job: Job, o: Op)
    requires o in DeletePhase(job)
    ensures IsJobOp(job, o)
  {
    DeletePhaseExact(job, o);
  }

  lemma IndexingDeletes(pl: Pipeline, path: Path, content: string, kind: Kind)
    ensures Delete(kind, pl.scope, path) in IndexFileOps(pl, path, content)
  {
    assert kind == Files || kind == Chunks || kind == Symbols || kind == Edges;
    assert Delete(kind, pl.scope, path) in DeleteFileOps(pl.scope, path);
  }

  /** Each file of a job is indexed by one part, from its content in the job's tree. */
  lemma PartOf(job: Job, k: nat)
    requires k < |Parts(job)|
    ensures var q := ToIndex(job.changes, job.tree)[k];
            Indexes(job, q) && Parts(job)[k] == IndexFileOps(job.pl, q, job.tree[q])
  {
    PlanExact(job);
  }

  lemma PartFor(job: Job, q: Path) returns (k: nat)
    requires Indexes(job, q)
    ensures k < |Parts(job)| && Parts(job)[k] == IndexFileOps(job.pl, q, job.tree[q])
  {
    PlanExact(job);
    k :| 0 <= k < |ToIndex(job.changes, job.tree)| && ToIndex(job.changes, job.tree)[k] == q;
  }

  // ---------------------------------------------------------------- what a job leaves behind

  /** `q` is a file of the job that writes the document `id`. */
  ghost predicate JobOwner(job: Job, q: Path, id: DocId) {
    Indexes(job, q) && Target(job.pl, q, job.tree[q], id).Some?
  }

  /** No two files the job indexes write the document `id`. */
  ghost predicate OneJobOwner(job: Job, id: DocId) {
    forall p, q :: JobOwner(job, p, id) && JobOwner(job, q, id) ==> p == q
  }

  /** The document at `id` after a completed job, as a function of the document there before. */
  ghost function Outcome(job: Job, before: Option<Doc>, id: DocId): Option<Doc> {
    if exists q :: JobOwner(job, q, id) then
      var q :| JobOwner(job, q, id);
      Target(job.pl, q, job.tree[q], id)
    else if before.Some? && id.scope == job.pl.scope && exists p :: Touches(job, p) && Matches(before.value, p) then None
    else before
  }

  /** The last relevant write of a complete execution is the target of the document's file. */
  lemma ExecutionLastRelevant(job: Job, ops: seq<Op>, id: DocId, q: Path)
    requires IsExecution(job, ops) && JobOwner(job, q, id) && OneJobOwner(job, id)
    ensures LastRelevant(ops, id, q) == Some(Put(id, Target(job.pl, q, job.tree[q], id).value))
  {
    var pool :| IsExecutionBy(job, ops, pool);
    var parts, target := Parts(job), Put(id, Target(job.pl, q, job.tree[q], id).value);
    hide Parts, Target, DeletePhase, IndexFileOps, LastRelevant, Indexes;
    forall k | 0 <= k < |parts|
      ensures LastRelevant(parts[k], id, q).Some? ==> LastRelevant(parts[k], id, q).value == target
    {
      PartOf(job, k);
      var p := ToIndex(job.changes, job.tree)[k];
      if p != q { assert !JobOwner(job, p, id); }
      IndexFileLastRelevant(job.pl, p, job.tree[p], id, q);
    }
    var k := PartFor(job, q);
    IndexFileLastRelevant(job.pl, q, job.tree[q], id, q);
    AgreedLastRelevant(pool, parts, id, q, iset{target}, k);
    LastRelevantConcat(DeletePhase(job), Untag(pool), id, q);
  }

  lemma JobPutsBelongToOwner(job: Job, ops: seq<Op>, id: DocId, q: Path)
    requires (forall o :: o in ops ==> IsJobOp(job, o)) && JobOwner(job, q, id) && OneJobOwner(job, id)
    ensures PutsBelongTo(ops, id, q)
  {
    forall o | o in ops && o.Put? && o.id == id ensures forall p :: Matches(o.doc, p) <==> p == q {
      assert IsJobOp(job, o);
      var r :| WritesFor(job, r, o);
      FileWritesAreOwn(job.pl, r, job.tree[r], o);
      TargetIsWritten(job.pl, r, job.tree[r], id);
      assert o == Put(id, o.doc);
      assert JobOwner(job, r, id);
    }
  }

  lemma NoJobPuts(job: Job, ops: seq<Op>, id: DocId)
    requires (forall o :: o in ops ==> IsJobOp(job, o)) && forall q :: !JobOwner(job, q, id)
    ensures forall o :: o in ops && o.Put? ==> o.id != id
  {
    forall o | o in ops && o.Put? ensures o.id != id {
      assert IsJobOp(job, o);
      var r :| WritesFor(job, r, o);
      TargetIsWritten(job.pl, r, job.tree[r], o.id);
      assert o == Put(o.id, o.doc);
      assert JobOwner(job, r, o.id);
    }
  }

  /**
   * Any trace of writes of one job: leftovers of executions that crashed, then one or more
   * complete executions interleaved in any way.
   */
  ghost predicate IsJobTrace(job: Job, ops: seq<Op>) {
    exists leftovers, trace, executions :: IsJobTraceOf(job, ops, leftovers, trace, executions)
  }

  ghost predicate IsJobTraceOf(job: Job, ops: seq<Op>, leftovers: seq<Op>, trace: seq<Tagged>, executions: seq<seq<Op>>) {
    && ops == leftovers + Untag(trace)
    && (forall o :: o in leftovers ==> IsJobOp(job, o))
    && |executions| > 0 && Interleaves(trace, executions)
    && forall k :: 0 <= k < |executions| ==> IsExecution(job, executions[k])
  }

  lemma JobTraceOps(job: Job, leftovers: seq<Op>, trace: seq<Tagged>, executions: seq<seq<Op>>, ops: seq<Op>)
    requires IsJobTraceOf(job, ops, leftovers, trace, executions)
    ensures forall o :: o in ops ==> IsJobOp(job, o)
    ensures forall kind, p :: Touches(job, p) ==> Delete(kind, job.pl.scope, p) in ops
  {
    forall o | o in ops ensures IsJobOp(job, o) {
      InterleavedOps(trace, executions, o);
      if k :| 0 <= k < |executions| && o in executions[k] { ExecutionOps(job, executions[k]); }
    }
    forall kind, p | Touches(job, p) ensures Delete(kind, job.pl.scope, p) in ops {
      ExecutionOps(job, executions[0]);
      InterleavedOps(trace, executions, Delete(kind, job.pl.scope, p));
    }
  }

  /** Every trace of a job leaves the outcome at every document that at most one of its files writes. */
  lemma JobTraceOutcome(job: Job, ops: seq<Op>, ix: Index, id: DocId)
    requires IsJobTrace(job, ops) && OneJobOwner(job, id)
    ensures Lookup(ApplyAll(ix, ops), id) == Outcome(job, Lookup(ix, id), id)
  {
    var leftovers, trace, executions :| IsJobTraceOf(job, ops, leftovers, trace, executions);
    JobTraceOps(job, leftovers, trace, executions, ops);
    if q :| JobOwner(job, q, id) {
      var target := Put(id, Target(job.pl, q, job.tree[q], id).value);
      forall k | 0 <= k < |executions| ensures LastRelevant(executions[k], id, q) == Some(target) {
        ExecutionLastRelevant(job, executions[k], id, q);
      }
      AgreedLastRelevant(trace, executions, id, q, iset{target}, 0);
      LastRelevantConcat(leftovers, Untag(trace), id, q);
      JobPutsBelongToOwner(job, ops, id, q);
      LastWriteDecides(ix, ops, id, q);
    } else {
      NoJobPuts(job, ops, id);
      WithoutPuts(ix, ops, id);
      if id in ix { RemovedIffTouched(job, ops, id, ix[id]); }
    }
  }

  lemma RemovedIffTouched(job: Job, ops: seq<Op>, id: DocId, d: Doc)
    requires forall o :: o in ops ==> IsJobOp(job, o)
    requires forall kind, p :: Touches(job, p) ==> Delete(kind, job.pl.scope, p) in ops
    ensures (exists o :: o in ops && Removes(o, id, d))
       <==> id.scope == job.pl.scope && exists p :: Touches(job, p) && Matches(d, p)
  {
    if o :| o in ops && Removes(o, id, d) { assert IsJobOp(job, o) && Touches(job, o.path); }
    if id.scope == job.pl.scope {
      if p :| Touches(job, p) && Matches(d, p) {
        assert Removes(Delete(KindOf(id), job.pl.scope, p), id, d);
      }
    }
  }

  /**
   * Re-executing a job is harmless: crashed attempts, and any interleaving of complete attempts
   * after them, leave the index a single run would have left.
   */
  lemma ReExecutionIsHarmless(job: Job, single: seq<Op>, ops: seq<Op>, ix: Index, id: DocId)
    requires IsExecution(job, single) && IsJobTrace(job, ops) && OneJobOwner(job, id)
    ensures Lookup(ApplyAll(ix, ops), id) == Lookup(ApplyAll(ix, single), id)
  {
    JobTraceOutcome(job, ops, ix, id);
    ExecutionIsTrace(job, single);
    JobTraceOutcome(job, single, ix, id);
  }

  lemma ExecutionIsTrace(job: Job, ops: seq<Op>)
    requires IsExecution(job, ops)
    ensures IsJobTrace(job, ops)
  {
    hide IsExecution;
    var trace := TagAll(ops, 0);
    ByTagged(ops);
    assert Interleaves(trace, [ops]);
    assert IsJobTraceOf(job, ops, [], trace, [ops]);
  }

  // ---------------------------------------------------------------- what a change means for a file

  ghost predicate FilesKeyed(ix: Index) {
    forall id :: id in ix && KindOf(id) == Files ==> ix[id].FileDoc? && ix[id].path == id.key.path
  }

  lemma FileOwner(job: Job, p: Path)
    ensures OneJobOwner(job, FileId(job.pl, p))
    ensures forall q :: JobOwner(job, q, FileId(job.pl, p)) <==>
              q == p && Indexes(job, p) && job.pl.shouldIndex(p, job.tree[p])
  {
    hide Target;
    forall q | Indexes(job, q)
      ensures Target(job.pl, q, job.tree[q], FileId(job.pl, p)).Some? <==> job.pl.shouldIndex(q, job.tree[q]) && p == q
    {
      FileTarget(job.pl, q, job.tree[q], p);
    }
  }

  /** After an execution the index lists a file that was to be indexed, no other touched file, and the rest as before. */
  lemma FilesAfter(job: Job, ops: seq<Op>, ix: Index, p: Path)
    requires IsExecution(job, ops) && FilesKeyed(ix)
    ensures var id, after := FileId(job.pl, p), ApplyAll(ix, ops);
            if Indexes(job, p) && job.pl.shouldIndex(p, job.tree[p])
            then id in after && after[id].FileDoc? && after[id].digest == Digest(job.tree[p])
            else if Touches(job, p) then id !in after
            else Lookup(after, id) == Lookup(ix, id)
  {
    var id := FileId(job.pl, p);
    ExecutionIsTrace(job, ops);
    FileOwner(job, p);
    JobTraceOutcome(job, ops, ix, id);
    hide Target, Indexes, Deletes, IsExecution, ApplyAll, IsJobTrace, FileWrites;
    if JobOwner(job, p, id) { FileTarget(job.pl, p, job.tree[p], p); }
    if id in ix && KindOf(id) == Files { assert forall q :: Matches(ix[id], q) <==> q == p; }
  }

  /** Some change puts the file in the index: it has this new path, and the file is in the tree. */
  predicate PutBack(job: Job, p: Path) {
    p in job.tree && exists c :: c in job.changes && !c.deleted && c.newPath == p
  }

  /**
   * What one change means: its new file is listed with its content's digest, or not at all if it is
   * not to be indexed or is missing; a deleted or renamed file is gone unless some change puts it back.
   */
  lemma ChangeMeans(job: Job, ops: seq<Op>, ix: Index, c: Change)
    requires IsExecution(job, ops) && FilesKeyed(ix) && c in job.changes
    ensures var after, to, from := ApplyAll(ix, ops), FileId(job.pl, c.newPath), FileId(job.pl, c.oldPath);
            && (!c.deleted ==>
                  (to in after <==> c.newPath in job.tree && job.pl.shouldIndex(c.newPath, job.tree[c.newPath])))
            && (!c.deleted && to in after ==> after[to].FileDoc? && after[to].digest == Digest(job.tree[c.newPath]))
            && ((c.deleted || c.renamed) && !PutBack(job, c.oldPath) ==> from !in after)
  {
    FilesAfter(job, ops, ix, c.newPath);
    FilesAfter(job, ops, ix, c.oldPath);
    hide IsExecution, ApplyAll;
  }

  /** A file that no change mentions stays as it is. */
  lemma OtherFilesStay(job: Job, ops: seq<Op>, ix: Index, p: Path)
    requires IsExecution(job, ops) && FilesKeyed(ix)
    requires forall c :: c in job.changes ==> c.oldPath != p && c.newPath != p
    ensures Lookup(ApplyAll(ix, ops), FileId(job.pl, p)) == Lookup(ix, FileId(job.pl, p))
  {
    FilesAfter(job, ops, ix, p);
    hide IsExecution, ApplyAll;
  }

  function TagAll(ops: seq<Op>, k: nat): seq<Tagged> {
    seq(|ops|, i requires 0 <= i < |ops| => Tagged(k, ops[i]))
  }

  lemma {:induction false} ByTagged(ops: seq<Op>)
    ensures By(TagAll(ops, 0), 0) == ops && Untag(TagAll(ops, 0)) == ops
  {
    if ops != [] {
      ByTagged(ops[..|ops| - 1]);
      assert TagAll(ops, 0)[..|ops| - 1] == TagAll(ops[..|ops| - 1], 0);
    }
  }
}
