/**
 * Links between documents: every symbol's definition chunk and every edge's source chunk is a
 * live chunk of the same file, and pruning removes exactly the edges for which it is not
 * (adapters/elasticsearch/_indexing.py).
 */
module ReferentialIntegrity {
  import opened Common
  import opened SearchIndex
  import opened FileIndex

  /** The document has the shape its id promises; a link stays within the file and scope, and edges name no target file. */
  predicate WellKeyedDoc(id: DocId, d: Doc) {
    match KindOf(id)
    case Files => d.FileDoc? && d.path == id.key.path
    case Chunks => d.ChunkDoc? && d.path == id.key.path
    case Symbols => d.SymbolDoc? && OfFile(d.definitionChunk, id.scope, d.path)
    case Edges => d.EdgeDoc? && d.path == id.key.path && d.targetPath == None && OfFile(d.sourceChunk, id.scope, d.path)
  }

  predicate OfFile(chunk: DocId, scope: Scope, path: Path) {
    chunk.scope == scope && chunk.key.ChunkKey? && chunk.key.path == path
  }

  predicate WellKeyed(ix: Index) {
    forall id :: id in ix ==> WellKeyedDoc(id, ix[id])
  }

  /** The chunk a symbol or edge document depends on. */
  function LinkOf(d: Doc): Option<DocId> {
    match d
    case SymbolDoc(_, _, c) => Some(c)
    case EdgeDoc(_, c, _, _) => Some(c)
    case _ => None
  }

  predicate Dangling(ix: Index, d: Doc) {
    LinkOf(d).Some? && LinkOf(d).value !in ix
  }

  ghost predicate Integrity(ix: Index) {
    WellKeyed(ix) && forall id :: id in ix ==> !Dangling(ix, ix[id])
  }

  // ---------------------------------------------------------------- whole-file operations

  predicate OfDeletedFile(id: DocId, d: Doc, scope: Scope, path: Path) {
    id.scope == scope && Matches(d, path)
  }

  lemma DeleteFileSteps(ix: Index, scope: Scope, path: Path)
    ensures var a := Apply(ix, Delete(Chunks, scope, path));
            var b := Apply(a, Delete(Files, scope, path));
            var c := Apply(b, Delete(Symbols, scope, path));
            ApplyAll(ix, DeleteFileOps(scope, path)) == Apply(c, Delete(Edges, scope, path))
  {
    hide Apply;
    var ops := DeleteFileOps(scope, path);
    assert ops[..3][..2] == ops[..2] && ops[..2][..1] == ops[..1] && ops[..1][..0] == [];
    assert ApplyAll(ix, ops[..1]) == Apply(ix, ops[0]);
    assert ApplyAll(ix, ops[..2]) == Apply(ApplyAll(ix, ops[..1]), ops[1]);
    assert ApplyAll(ix, ops[..3]) == Apply(ApplyAll(ix, ops[..2]), ops[2]);
  }

  /** The four delete requests together remove the file's documents of every kind and nothing else. */
  lemma DeleteFileRemoves(ix: Index, scope: Scope, path: Path)
    ensures ApplyAll(ix, DeleteFileOps(scope, path))
         == map id | id in ix && !OfDeletedFile(id, ix[id], scope, path) :: ix[id]
    ensures var after := ApplyAll(ix, DeleteFileOps(scope, path));
            forall id :: Lookup(after, id) ==
              if id in ix && id.scope == scope
                 && (ix[id].path == path || (ix[id].EdgeDoc? && ix[id].targetPath == Some(path)))
              then None else Lookup(ix, id)
  {
    DeleteFileSteps(ix, scope, path);
    assert forall id :: KindOf(id) == Chunks || KindOf(id) == Files || KindOf(id) == Symbols || KindOf(id) == Edges;
  }

  lemma DeleteKeepsIntegrity(ix: Index, scope: Scope, path: Path)
    requires Integrity(ix)
    ensures Integrity(ApplyAll(ix, DeleteFileOps(scope, path)))
  {
    DeleteFileRemoves(ix, scope, path);
    var after := ApplyAll(ix, DeleteFileOps(scope, path));
    forall id | id in after ensures WellKeyedDoc(id, after[id]) && !Dangling(after, after[id]) {
      assert WellKeyedDoc(id, ix[id]) && !Dangling(ix, ix[id]);
      if LinkOf(ix[id]).Some? {
        var c := LinkOf(ix[id]).value;
        assert WellKeyedDoc(c, ix[c]);
      }
    }
  }

  lemma KeptChunkWritten(pl: Pipeline, path: Path, content: string, raw: RawChunk)
    requires raw in pl.rawChunks(path, content)
    requires ChunkId(pl, path, content, raw) !in SkippedIds(pl, path, content, pl.rawChunks(path, content))
    ensures ChunkWrite(pl, path, content, raw) in FileWrites(pl, path, content)
  {
    var raws := pl.rawChunks(path, content);
    WritesExact(pl, path, content, raws, SkippedIds(pl, path, content, raws));
  }

  /** Every write of a file is well keyed, and the chunk a link needs is written too. */
  lemma FileWriteKeyed(pl: Pipeline, path: Path, content: string, o: Op)
    requires o in FileWrites(pl, path, content)
    ensures o.Put? && WellKeyedDoc(o.id, o.doc)
    ensures LinkOf(o.doc).Some? ==> exists d :: Put(LinkOf(o.doc).value, d) in FileWrites(pl, path, content)
  {
    var raws := pl.rawChunks(path, content);
    var skipped := SkippedIds(pl, path, content, raws);
    WritesExact(pl, path, content, raws, skipped);
    hide FileWrites, ChunkWrites, SymbolWrites, EdgeWrites, SkippedIds;
    var symbols, edges := SymbolWrites(pl, path, content, raws, skipped), EdgeWrites(pl, path, content, raws, skipped);
    if o in symbols {
      var raw :| raw in raws && Named(raw) && ChunkId(pl, path, content, raw) !in skipped
                 && o == SymbolWrite(pl, path, content, raw);
      KeptChunkWritten(pl, path, content, raw);
    } else if o in edges {
      var raw, t :| raw in raws && t in raw.targets && ChunkId(pl, path, content, raw) !in skipped
                    && o == EdgeWrite(pl, path, content, raw, t);
      KeptChunkWritten(pl, path, content, raw);
    } else {
      FileOrChunkWrite(pl, path, content, o);
    }
  }

  lemma FileOrChunkWrite(pl: Pipeline, path: Path, content: string, o: Op)
    requires o in FileWrites(pl, path, content)
    requires var raws := pl.rawChunks(path, content);
             var skipped := SkippedIds(pl, path, content, raws);
             o !in SymbolWrites(pl, path, content, raws, skipped) && o !in EdgeWrites(pl, path, content, raws, skipped)
    ensures o.Put? && WellKeyedDoc(o.id, o.doc) && LinkOf(o.doc).None?
  {
    var raws := pl.rawChunks(path, content);
    WritesExact(pl, path, content, raws, SkippedIds(pl, path, content, raws));
  }

  ghost predicate AllPuts(ops: seq<Op>) {
    forall o :: o in ops ==> o.Put?
  }

  ghost predicate PutsTo(ops: seq<Op>, id: DocId) {
    exists o :: o in ops && o.Put? && o.id == id
  }

  /** Puts only: a document is one that was there or the last one put, and nothing disappears. */
  lemma {:induction false} PutsOnly(ix: Index, ops: seq<Op>)
    requires AllPuts(ops)
    ensures var after := ApplyAll(ix, ops);
            && (forall id :: id in after <==> id in ix || PutsTo(ops, id))
            && (forall id :: id in after ==> Put(id, after[id]) in ops || (id in ix && after[id] == ix[id]))
  {
    if ops != [] {
      var init, o := ops[..|ops| - 1], ops[|ops| - 1];
      assert ops == init + [o];
      PutsOnly(ix, init);
      forall id ensures PutsTo(ops, id) <==> PutsTo(init, id) || id == o.id {
        if id == o.id { assert o in ops; }
      }
    }
  }

  /** Replacing a file keeps every link live, also when chunks with secrets are withheld. */
  lemma ReplaceKeepsIntegrity(ix: Index, pl: Pipeline, path: Path, content: string)
    requires Integrity(ix)
    ensures Integrity(ApplyAll(ix, DeleteFileOps(pl.scope, path) + FileWrites(pl, path, content)))
  {
    var cleared := ApplyAll(ix, DeleteFileOps(pl.scope, path));
    var writes := FileWrites(pl, path, content);
    DeleteKeepsIntegrity(ix, pl.scope, path);
    ApplyAllConcat(ix, DeleteFileOps(pl.scope, path), writes);
    forall o | o in writes ensures o.Put? { FileWriteKeyed(pl, path, content, o); }
    PutsOnly(cleared, writes);
    var after := ApplyAll(cleared, writes);
    forall id | id in after ensures WellKeyedDoc(id, after[id]) && !Dangling(after, after[id]) {
      if Put(id, after[id]) in writes {
        FileWriteKeyed(pl, path, content, Put(id, after[id]));
        if LinkOf(after[id]).Some? {
          var d :| Put(LinkOf(after[id]).value, d) in writes;
          assert PutsTo(writes, LinkOf(after[id]).value);
        }
      } else {
        assert WellKeyedDoc(id, cleared[id]) && !Dangling(cleared, cleared[id]);
      }
    }
  }

  /** A completed index-mutation call: delete_file, or replace_file with what the builder produced. */
  datatype Call = DeleteFile(scope: Scope, path: Path) | ReplaceFile(pl: Pipeline, path: Path, content: string)

  function CallOps(c: Call): seq<Op> {
    match c
    case DeleteFile(scope, path) => DeleteFileOps(scope, path)
    case ReplaceFile(pl, path, content) => DeleteFileOps(pl.scope, path) + FileWrites(pl, path, content)
  }

  function AfterCalls(ix: Index, calls: seq<Call>): Index {
    if calls == [] then ix else ApplyAll(AfterCalls(ix, calls[..|calls| - 1]), CallOps(calls[|calls| - 1]))
  }

  /** Any sequence of completed deletes and replaces, of any projects and branches, leaves every link live. */
  lemma {:induction false} CallsKeepIntegrity(ix: Index, calls: seq<Call>)
    requires Integrity(ix)
    ensures Integrity(AfterCalls(ix, calls))
  {
    if calls != [] {
      var before := AfterCalls(ix, calls[..|calls| - 1]);
      CallsKeepIntegrity(ix, calls[..|calls| - 1]);
      match calls[|calls| - 1]
      case DeleteFile(scope, path) => DeleteKeepsIntegrity(before, scope, path);
      case ReplaceFile(pl, path, content) => ReplaceKeepsIntegrity(before, pl, path, content);
    }
  }

  // ---------------------------------------------------------------- pruning

  const AGGREGATION_LIMIT: nat := 50_000

  predicate EdgeIn(id: DocId, d: Doc, scope: Scope) {
    d.EdgeDoc? && id.scope == scope
  }

  function SourcesOf(ix: Index, scope: Scope): set<DocId> {
    set id | id in ix && EdgeIn(id, ix[id], scope) && ix[id].EdgeDoc? :: ix[id].sourceChunk
  }

  /** What the terms aggregation may return: source ids of the scope's edges, all of them unless the limit is reached. */
  predicate IsAggregation(ix: Index, scope: Scope, ids: set<DocId>) {
    ids <= SourcesOf(ix, scope) && |ids| <= AGGREGATION_LIMIT && (|ids| == AGGREGATION_LIMIT || ids == SourcesOf(ix, scope))
  }

  /** The delete query of the prune: tenant, branch and source id, but not the project. */
  predicate Pruned(id: DocId, d: Doc, scope: Scope, orphaned: set<DocId>) {
    d.EdgeDoc? && id.scope.tenant == scope.tenant && id.scope.branch == scope.branch && d.sourceChunk in orphaned
  }

  function Prune(ix: Index, scope: Scope, ids: set<DocId>): Index {
    var orphaned := set s | s in ids && s !in ix;
    if orphaned == {} then ix
    else map id | id in ix && !Pruned(id, ix[id], scope, orphaned) :: ix[id]
  }

  /**
   * Pruning removes exactly the scope's edges whose source chunk is gone and was among the
   * aggregated ids, and keeps every other document as it is.
   */
  lemma PruneRemovesDangling(ix: Index, scope: Scope, ids: set<DocId>)
    requires WellKeyed(ix) && IsAggregation(ix, scope, ids)
    ensures forall id :: id in ix ==>
              (id !in Prune(ix, scope, ids) <==>
                 EdgeIn(id, ix[id], scope) && Dangling(ix, ix[id]) && ix[id].sourceChunk in ids)
    ensures forall id :: id in Prune(ix, scope, ids) ==> id in ix && Prune(ix, scope, ids)[id] == ix[id]
    ensures |SourcesOf(ix, scope)| <= AGGREGATION_LIMIT ==>
              forall id :: id in ix && EdgeIn(id, ix[id], scope) ==> ix[id].sourceChunk in ids
  {
    var orphaned := set s | s in ids && s !in ix;
    assert forall s :: s in ids && s !in ix ==> s in orphaned;
    forall id | id in ix && Pruned(id, ix[id], scope, orphaned) ensures EdgeIn(id, ix[id], scope) {
      var s := ix[id].sourceChunk;
      var e :| e in ix && EdgeIn(e, ix[e], scope) && ix[e].EdgeDoc? && ix[e].sourceChunk == s;
      assert WellKeyedDoc(id, ix[id]) && WellKeyedDoc(e, ix[e]);
    }
    assert forall id :: id in ix && EdgeIn(id, ix[id], scope) ==> ix[id].sourceChunk in SourcesOf(ix, scope);
    if |SourcesOf(ix, scope)| <= AGGREGATION_LIMIT { SubsetCard(ids, SourcesOf(ix, scope)); }
  }

  /** Below the limit no dangling edge of the scope is left. */
  lemma PruneRestoresEdges(ix: Index, scope: Scope, ids: set<DocId>)
    requires WellKeyed(ix) && IsAggregation(ix, scope, ids) && |SourcesOf(ix, scope)| <= AGGREGATION_LIMIT
    ensures var after := Prune(ix, scope, ids);
            forall id :: id in after && EdgeIn(id, after[id], scope) ==> !Dangling(after, after[id])
  {
    PruneRemovesDangling(ix, scope, ids);
    var after := Prune(ix, scope, ids);
    forall id | id in after && EdgeIn(id, after[id], scope) ensures !Dangling(after, after[id]) {
      var c := ix[id].sourceChunk;
      assert c in ix && WellKeyedDoc(id, ix[id]) && WellKeyedDoc(c, ix[c]);
    }
  }

  /** On an index whose links are all live, pruning changes nothing. */
  lemma PruneIsIdle(ix: Index, scope: Scope, ids: set<DocId>)
    requires Integrity(ix) && IsAggregation(ix, scope, ids)
    ensures Prune(ix, scope, ids) == ix
  {
    forall s | s in ids ensures s in ix {
      var e :| e in ix && EdgeIn(e, ix[e], scope) && ix[e].EdgeDoc? && ix[e].sourceChunk == s;
      assert !Dangling(ix, ix[e]);
    }
  }
}
