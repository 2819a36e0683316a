/**
 * The index a tree should have, and when incremental indexing reaches it
 * (apps/indexing/indexing_service.py `incremental_index_project`).
 */
module TreeProjection {
  import opened Common
  import opened SearchIndex
  import opened FileIndex
  import opened IncrementalIndexing

  ghost predicate Owner(pl: Pipeline, tree: Tree, q: Path, id: DocId) {
    q in tree && Target(pl, q, tree[q], id).Some?
  }

  /** At most one file of the tree writes the document; only symbols that share an FQN can fail this. */
  ghost predicate Uncontested(pl: Pipeline, tree: Tree, id: DocId) {
    forall p, q :: Owner(pl, tree, p, id) && Owner(pl, tree, q, id) ==> p == q
  }

  /** The document a tree calls for at `id`. */
  ghost function Expected(pl: Pipeline, tree: Tree, id: DocId): Option<Doc> {
    if exists q :: Owner(pl, tree, q, id) then
      var q :| Owner(pl, tree, q, id);
      Target(pl, q, tree[q], id)
    else None
  }

  ghost predicate ReflectsAt(ix: Index, pl: Pipeline, tree: Tree, id: DocId) {
    Lookup(ix, id) == Expected(pl, tree, id)
  }

  /** File, chunk and edge ids name their file, so no two files write the same one. */
  lemma OnlySymbolsContested(pl: Pipeline, tree: Tree, id: DocId)
    requires KindOf(id) != Symbols
    ensures Uncontested(pl, tree, id)
  {
    forall p, q | Owner(pl, tree, p, id) && Owner(pl, tree, q, id) ensures p == q {
      TargetOwned(pl, p, tree[p], id);
      TargetOwned(pl, q, tree[q], id);
    }
  }

  lemma UncontestedInJob(job: Job, id: DocId)
    requires Uncontested(job.pl, job.tree, id)
    ensures OneJobOwner(job, id)
  {
    forall p, q | JobOwner(job, p, id) && JobOwner(job, q, id) ensures p == q {
      assert Owner(job.pl, job.tree, p, id) && Owner(job.pl, job.tree, q, id);
    }
  }

  // ---------------------------------------------------------------- when the changes are adequate

  predicate Indexable(pl: Pipeline, tree: Tree, p: Path) {
    p in tree && pl.shouldIndex(p, tree[p])
  }

  /**
   * The change list deals with `p`: it has it indexed; or it only deletes it and the new tree
   * wants no documents for it; or it leaves it alone and nothing indexable about it differs.
   */
  predicate DealsWith(job: Job, oldTree: Tree, p: Path) {
    if Indexes(job, p) then true
    else if Deletes(job, p) then !Indexable(job.pl, job.tree, p)
    else
      && Indexable(job.pl, oldTree, p) == Indexable(job.pl, job.tree, p)
      && (Indexable(job.pl, oldTree, p) ==> oldTree[p] == job.tree[p])
  }

  ghost predicate Adequate(job: Job, oldTree: Tree) {
    forall p :: DealsWith(job, oldTree, p)
  }

  /**
   * A complete change list: every differing path is listed, and a path that is deleted or renamed
   * away but present in the new tree is also listed as a new path.
   */
  ghost predicate CompleteDiff(job: Job, oldTree: Tree) {
    && (forall p :: p in job.tree && (p !in oldTree || oldTree[p] != job.tree[p]) ==> Indexes(job, p))
    && (forall p :: p in oldTree && p !in job.tree ==> Deletes(job, p))
    && (forall p :: p in job.tree && Deletes(job, p) ==> Indexes(job, p))
  }

  /** Rename swaps and rename-plus-re-add are complete diffs like any other. */
  lemma CompleteDiffIsAdequate(job: Job, oldTree: Tree)
    requires CompleteDiff(job, oldTree)
    ensures Adequate(job, oldTree)
  {
    forall p ensures DealsWith(job, oldTree, p) {}
  }

  // ---------------------------------------------------------------- convergence

  lemma OwnerPath(pl: Pipeline, tree: Tree, q: Path, id: DocId)
    requires Owner(pl, tree, q, id)
    ensures id.scope == pl.scope && forall p :: Matches(Target(pl, q, tree[q], id).value, p) <==> p == q
  {
    TargetOwned(pl, q, tree[q], id);
  }

  lemma ExpectedIs(pl: Pipeline, tree: Tree, q: Path, id: DocId)
    requires Owner(pl, tree, q, id) && Uncontested(pl, tree, id)
    ensures Expected(pl, tree, id) == Target(pl, q, tree[q], id)
  {}

  lemma OutcomeIs(job: Job, before: Option<Doc>, q: Path, id: DocId)
    requires JobOwner(job, q, id) && OneJobOwner(job, id)
    ensures Outcome(job, before, id) == Target(job.pl, q, job.tree[q], id)
  {}

  /** The outcome of an adequate job on an index that reflects the old tree is what the new tree calls for. */
  lemma OutcomeIsExpected(job: Job, oldTree: Tree, id: DocId)
    requires Adequate(job, oldTree)
    requires Uncontested(job.pl, oldTree, id) && Uncontested(job.pl, job.tree, id)
    ensures Outcome(job, Expected(job.pl, oldTree, id), id) == Expected(job.pl, job.tree, id)
  {
    UncontestedInJob(job, id);
    if q :| JobOwner(job, q, id) {
      OutcomeIs(job, Expected(job.pl, oldTree, id), q, id);
      ExpectedIs(job.pl, job.tree, q, id);
    } else {
      forall q | Owner(job.pl, job.tree, q, id)
        ensures !Touches(job, q) && Owner(job.pl, oldTree, q, id) && oldTree[q] == job.tree[q]
      {
        assert DealsWith(job, oldTree, q) && !JobOwner(job, q, id);
      }
      if p :| Owner(job.pl, oldTree, p, id) {
        ExpectedIs(job.pl, oldTree, p, id);
        OwnerPath(job.pl, oldTree, p, id);
        assert DealsWith(job, oldTree, p);
        if !Touches(job, p) { ExpectedIs(job.pl, job.tree, p, id); }
      }
    }
  }

  /** One incremental job, executed, interleaved and repeated in any way, carries the index from the old tree to the new. */
  lemma IncrementalReachesNewTree(job: Job, oldTree: Tree, ops: seq<Op>, ix: Index, id: DocId)
    requires IsJobTrace(job, ops) && Adequate(job, oldTree)
    requires Uncontested(job.pl, oldTree, id) && Uncontested(job.pl, job.tree, id)
    requires ReflectsAt(ix, job.pl, oldTree, id)
    ensures ReflectsAt(ApplyAll(ix, ops), job.pl, job.tree, id)
  {
    UncontestedInJob(job, id);
    JobTraceOutcome(job, ops, ix, id);
    OutcomeIsExpected(job, oldTree, id);
  }

  /** Nothing outside the project and branch of the job changes. */
  lemma OtherScopesUntouched(job: Job, ops: seq<Op>, ix: Index, id: DocId)
    requires IsJobTrace(job, ops) && id.scope != job.pl.scope
    ensures Lookup(ApplyAll(ix, ops), id) == Lookup(ix, id)
  {
    forall q ensures !JobOwner(job, q, id) {
      if JobOwner(job, q, id) { TargetOwned(job.pl, q, job.tree[q], id); }
    }
    JobTraceOutcome(job, ops, ix, id);
  }

  ghost predicate ReflectsFiles(ix: Index, pl: Pipeline, tree: Tree) {
    forall p :: ReflectsAt(ix, pl, tree, FileId(pl, p))
  }

  lemma ExpectedFile(pl: Pipeline, tree: Tree, p: Path)
    ensures var e := Expected(pl, tree, FileId(pl, p));
            && (e.Some? <==> Indexable(pl, tree, p))
            && (e.Some? ==> e.value.FileDoc? && e.value.digest == Digest(tree[p]))
  {
    var id := FileId(pl, p);
    forall q | q in tree ensures Owner(pl, tree, q, id) <==> pl.shouldIndex(q, tree[q]) && q == p {
      FileTarget(pl, q, tree[q], p);
    }
    if Indexable(pl, tree, p) {
      assert Owner(pl, tree, p, id);
      FileTarget(pl, p, tree[p], p);
    }
  }

  /**
   * Adequacy is exactly what the change list needs: starting from the old tree's file documents,
   * a job ends with the new tree's file documents if and only if its changes deal with every path.
   */
  lemma AdequateIffFilesReflected(job: Job, oldTree: Tree, ops: seq<Op>, ix: Index)
    requires IsJobTrace(job, ops) && ReflectsFiles(ix, job.pl, oldTree)
    ensures ReflectsFiles(ApplyAll(ix, ops), job.pl, job.tree) <==> Adequate(job, oldTree)
  {
    if Adequate(job, oldTree) {
      forall p ensures ReflectsAt(ApplyAll(ix, ops), job.pl, job.tree, FileId(job.pl, p)) {
        var id := FileId(job.pl, p);
        assert ReflectsAt(ix, job.pl, oldTree, id);
        OnlySymbolsContested(job.pl, oldTree, id);
        OnlySymbolsContested(job.pl, job.tree, id);
        IncrementalReachesNewTree(job, oldTree, ops, ix, id);
      }
    } else {
      var p :| !DealsWith(job, oldTree, p);
      NeglectedPathShows(job, oldTree, ops, ix, p);
    }
  }

  /** The file document of a path the job does not index: gone if the job deletes the path, as before if not. */
  lemma UnindexedFileOutcome(job: Job, oldTree: Tree, p: Path)
    requires !Indexes(job, p)
    ensures var id := FileId(job.pl, p);
            Outcome(job, Expected(job.pl, oldTree, id), id)
              == if Deletes(job, p) then None else Expected(job.pl, oldTree, id)
  {
    var id := FileId(job.pl, p);
    forall q ensures !JobOwner(job, q, id) {
      if JobOwner(job, q, id) { FileTarget(job.pl, q, job.tree[q], p); }
    }
    ExpectedFile(job.pl, oldTree, p);
    if Indexable(job.pl, oldTree, p) {
      FileTarget(job.pl, p, oldTree[p], p);
      OnlySymbolsContested(job.pl, oldTree, id);
      ExpectedIs(job.pl, oldTree, p, id);
      OwnerPath(job.pl, oldTree, p, id);
      assert forall q :: Matches(Expected(job.pl, oldTree, id).value, q) <==> q == p;
      assert Touches(job, p) <==> Deletes(job, p);
    }
  }

  lemma NeglectedPathShows(job: Job, oldTree: Tree, ops: seq<Op>, ix: Index, p: Path)
    requires IsJobTrace(job, ops) && ReflectsFiles(ix, job.pl, oldTree) && !DealsWith(job, oldTree, p)
    ensures !ReflectsAt(ApplyAll(ix, ops), job.pl, job.tree, FileId(job.pl, p))
  {
    var id := FileId(job.pl, p);
    assert ReflectsAt(ix, job.pl, oldTree, id);
    OnlySymbolsContested(job.pl, job.tree, id);
    UncontestedInJob(job, id);
    JobTraceOutcome(job, ops, ix, id);
    UnindexedFileOutcome(job, oldTree, p);
    ExpectedFile(job.pl, oldTree, p);
    ExpectedFile(job.pl, job.tree, p);
    hide Outcome, Expected, IsJobTrace, ReflectsFiles, OneJobOwner, Uncontested, Deletes, Indexes;
  }

  // ---------------------------------------------------------------- sequences of pushes

  /** One push: the job it starts and the writes its executions issued. */
  datatype Push = Push(job: Job, ops: seq<Op>)

  function AfterPushes(ix: Index, pushes: seq<Push>): Index {
    if pushes == [] then ix else ApplyAll(AfterPushes(ix, pushes[..|pushes| - 1]), pushes[|pushes| - 1].ops)
  }

  function TreeAfter(first: Tree, pushes: seq<Push>): Tree {
    if pushes == [] then first else pushes[|pushes| - 1].job.tree
  }

  /** Each push runs on the pipeline, from the tree the one before it left, with an adequate change list. */
  ghost predicate PushHistory(pl: Pipeline, first: Tree, pushes: seq<Push>) {
    if pushes == [] then true
    else
      var init, last := pushes[..|pushes| - 1], pushes[|pushes| - 1];
      && PushHistory(pl, first, init)
      && last.job.pl == pl && IsJobTrace(last.job, last.ops)
      && Adequate(last.job, TreeAfter(first, init))
  }

  ghost predicate UncontestedThroughout(pl: Pipeline, first: Tree, pushes: seq<Push>, id: DocId) {
    && Uncontested(pl, TreeAfter(first, pushes), id)
    && (pushes != [] ==> UncontestedThroughout(pl, first, pushes[..|pushes| - 1], id))
  }

  /** After any sequence of pushes the index reflects the last tree. */
  lemma {:induction false} PushesReachLastTree(pl: Pipeline, first: Tree, pushes: seq<Push>, ix: Index, id: DocId)
    requires PushHistory(pl, first, pushes) && UncontestedThroughout(pl, first, pushes, id)
    requires ReflectsAt(ix, pl, first, id)
    ensures ReflectsAt(AfterPushes(ix, pushes), pl, TreeAfter(first, pushes), id)
  {
    hide ApplyAll, Adequate, IsJobTrace, Uncontested, ReflectsAt;
    if pushes != [] {
      var init, last := pushes[..|pushes| - 1], pushes[|pushes| - 1];
      PushesReachLastTree(pl, first, init, ix, id);
      IncrementalReachesNewTree(last.job, TreeAfter(first, init), last.ops, AfterPushes(ix, init), id);
    }
  }
}
