/**
 * The imperative write path: the adapter's index as an object whose documents are replaced in
 * place (adapters/elasticsearch/_indexing.py), and the service methods that drive it
 * (apps/indexing/indexing_service.py).
 */
module IndexingService {
  import opened Common
  import opened SearchIndex
  import opened FileIndex
  import opened IncrementalIndexing
  import opened ReferentialIntegrity

  /** Every stored vector is the embedding of the text its hash was computed from. */
  ghost predicate EmbeddingsSound(ix: Index, embed: string -> Embedding) {
    forall id :: id in ix ==> SoundDoc(ix[id], embed)
  }

  predicate SoundDoc(d: Doc, embed: string -> Embedding) {
    d.ChunkDoc? ==> d.embedding == embed(d.inputHash.of)
  }

  /** The document at `id` carries an embedding of exactly this text, which may be reused. */
  predicate Reusable(ix: Index, id: DocId, text: string) {
    id in ix && ix[id].ChunkDoc? && ix[id].inputHash == Digest(text)
  }

  /** Where embeddings are looked for: the index, or nowhere if reuse is switched off. */
  function Searched(ix: Index, reuse: bool): Index { if reuse then ix else map[] }

  /** The texts the provider is asked for: those of the positions without a reusable embedding, in order. */
  function Requested(ix: Index, ids: seq<DocId>, texts: seq<string>): seq<string>
    requires |ids| == |texts|
  {
    if texts == [] then []
    else
      var n := |texts| - 1;
      Requested(ix, ids[..n], texts[..n]) + (if Reusable(ix, ids[n], texts[n]) then [] else [texts[n]])
  }

  /** The embedding provider, a deterministic function of each text. */
  method EmbedDocuments(embed: string -> Embedding, texts: seq<string>) returns (r: seq<Embedding>)
    ensures |r| == |texts| && forall i :: 0 <= i < |r| ==> r[i] == embed(texts[i])
  {
    r := seq(|texts|, i requires 0 <= i < |texts| => embed(texts[i]));
  }

  class CodeIndex {
    var docs: Index

    constructor ()
      ensures docs == map[]
    {
      docs := map[];
    }

    method DeleteByQuery(kind: Kind, scope: Scope, path: Path) returns (deleted: nat)
      modifies this
      ensures docs == Apply(old(docs), Delete(kind, scope, path))
      ensures deleted == |set id | id in old(docs) && Removes(Delete(kind, scope, path), id, old(docs)[id])|
    {
      var op := Delete(kind, scope, path);
      deleted := |set id | id in docs && Removes(op, id, docs[id])|;
      docs := map id | id in docs && !Removes(op, id, docs[id]) :: docs[id];
    }

    /** delete_file: chunks and files, then symbols, then edges; the edges are not counted. */
    method DeleteFile(scope: Scope, path: Path) returns (deleted: nat)
      modifies this
      ensures docs == ApplyAll(old(docs), DeleteFileOps(scope, path))
      ensures docs == map id | id in old(docs) && !OfDeletedFile(id, old(docs)[id], scope, path) :: old(docs)[id]
      ensures deleted == |DeletedNonEdges(old(docs), scope, path)|
    {
      ghost var before := docs;
      deleted := 0;
      var n := DeleteByQuery(Chunks, scope, path);
      deleted := deleted + n;
      n := DeleteByQuery(Files, scope, path);
      deleted := deleted + n;
      n := DeleteByQuery(Symbols, scope, path);
      deleted := deleted + n;
      n := DeleteByQuery(Edges, scope, path);
      FourDeletes(before, scope, path);
      DeleteFileSteps(before, scope, path);
      DeleteFileRemoves(before, scope, path);
    }

    /** existing_embeddings: the documents found among the requested chunk ids. */
    method ExistingEmbeddings(ids: seq<DocId>) returns (stored: map<DocId, Doc>)
      ensures stored == map id | id in ids && id in docs :: docs[id]
    {
      stored := map id | id in ids && id in docs :: docs[id];
    }

    method FileHash(scope: Scope, path: Path) returns (digest: Option<Digest>)
      ensures WellKeyed(docs) ==> forall d :: digest == Some(d) <==>
                var id := DocId(scope, FileKey(path)); id in docs && docs[id].digest == d
    {
      var id := DocId(scope, FileKey(path));
      digest := if id in docs && docs[id].FileDoc? then Some(docs[id].digest) else None;
    }

    method Bulk(actions: seq<Op>)
      requires AllPuts(actions)
      modifies this
      ensures docs == ApplyAll(old(docs), actions)
    {
      for i := 0 to |actions|
        invariant docs == ApplyAll(old(docs), actions[..i])
      {
        assert actions[..i + 1][..i] == actions[..i] && actions[..i + 1][i] == actions[i];
        docs := docs[actions[i].id := actions[i].doc];
      }
      assert actions[..|actions|] == actions;
    }

    /** prune_orphaned_edges, given the source ids its aggregation returned. */
    method PruneOrphanedEdges(scope: Scope, ids: set<DocId>) returns (deleted: nat)
      requires IsAggregation(docs, scope, ids)
      modifies this
      ensures docs == Prune(old(docs), scope, ids)
      ensures deleted == |old(docs)| - |docs|
    {
      var orphaned := set s | s in ids && s !in docs;
      if orphaned == {} { return 0; }
      ghost var gone := set id | id in docs && Pruned(id, docs[id], scope, orphaned);
      ghost var before := docs;
      deleted := |set id | id in docs && Pruned(id, docs[id], scope, orphaned)|;
      docs := map id | id in docs && !Pruned(id, docs[id], scope, orphaned) :: docs[id];
      assert docs.Keys == before.Keys - gone;
    }

    /**
     * `_attach_embeddings`: reuse is invisible.  Every position gets the embedding of its own
     * text, and the provider's results are used up exactly.
     */
    method AttachEmbeddings(embed: string -> Embedding, ids: seq<DocId>, texts: seq<string>, reuse: bool)
      returns (vectors: seq<Embedding>, requests: seq<string>, used: nat)
      requires |ids| == |texts| && EmbeddingsSound(docs, embed)
      ensures |vectors| == |texts| && forall i :: 0 <= i < |texts| ==> vectors[i] == embed(texts[i])
      ensures requests == Requested(Searched(docs, reuse), ids, texts) && used == |requests|
    {
      var reused;
      reused, requests := SelectReusable(embed, ids, texts, reuse);
      var embedded := EmbedDocuments(embed, requests);
      RequestedOfNothing(Searched(docs, reuse), ids, texts);
      hide Requested, EmbeddingsSound, Reusable, Searched;
      vectors, used := [], 0;
      for i := 0 to |texts|
        invariant |vectors| == i && forall k :: 0 <= k < i ==> vectors[k] == embed(texts[k])
        invariant used == |Requested(Searched(docs, reuse), ids[..i], texts[..i])|
      {
        NextRequest(Searched(docs, reuse), ids, texts, i);
        if i in reused {
          vectors := vectors + [reused[i]];
        } else {
          vectors := vectors + [embedded[used]];
          used := used + 1;
        }
      }
      assert ids[..|ids|] == ids && texts[..|texts|] == texts;
    }

    /** The positions whose stored vector may be reused, and the texts of the others. */
    method SelectReusable(embed: string -> Embedding, ids: seq<DocId>, texts: seq<string>, reuse: bool)
      returns (reused: map<nat, Embedding>, requests: seq<string>)
      requires |ids| == |texts| && EmbeddingsSound(docs, embed)
      ensures forall k: nat :: k in reused <==>
                && k < |texts| && reuse && ids[k] in docs
                && docs[ids[k]].ChunkDoc? && docs[ids[k]].inputHash == Digest(texts[k])
      ensures forall k :: k in reused ==> reused[k] == embed(texts[k])
      ensures requests == Requested(Searched(docs, reuse), ids, texts)
    {
      var stored: map<DocId, Doc> := map[];
      if reuse {
        stored := ExistingEmbeddings(ids);
      }
      reused, requests := map[], [];
      RequestedOfNothing(Searched(docs, reuse), ids, texts);
      hide Requested, EmbeddingsSound;
      for i := 0 to |texts|
        invariant forall k: nat :: k in reused <==> k < i && Reusable(Searched(docs, reuse), ids[k], texts[k])
        invariant forall k :: k in reused ==> reused[k] == embed(texts[k])
        invariant requests == Requested(Searched(docs, reuse), ids[..i], texts[..i])
      {
        RequestedStep(Searched(docs, reuse), ids, texts, i);
        if ids[i] in stored && stored[ids[i]].ChunkDoc? && stored[ids[i]].inputHash == Digest(texts[i]) {
          SoundAt(docs, embed, ids[i]);
          reused := reused[i := stored[ids[i]].embedding];
        } else {
          requests := requests + [texts[i]];
        }
      }
      assert ids[..|ids|] == ids && texts[..|texts|] == texts;
    }

    /** `_index_file`: the documents of the file, as if every chunk had been embedded from scratch. */
    method IndexFile(pl: Pipeline, path: Path, content: string) returns (added: nat, deleted: nat, indexed: bool)
      requires EmbeddingsSound(docs, pl.embed)
      modifies this
      ensures docs == ApplyAll(old(docs), IndexFileOps(pl, path, content))
      ensures EmbeddingsSound(docs, pl.embed)
      ensures deleted == |DeletedNonEdges(old(docs), pl.scope, path)| && indexed == pl.shouldIndex(path, content)
      ensures added == if indexed then |ChunksToKeep(pl, path, content)| else 0
    {
      IndexFileKeepsSound(docs, pl, path, content);
      if !pl.shouldIndex(path, content) {
        deleted := DeleteFile(pl.scope, path);
        return 0, deleted, false;
      }
      var raws := pl.rawChunks(path, content);
      var skipped := SkippedIds(pl, path, content, raws);
      var kept := KeptChunks(pl, path, content, raws, skipped);
      var ids := seq(|kept|, i requires 0 <= i < |kept| => ChunkId(pl, path, content, kept[i]));
      var texts := seq(|kept|, i requires 0 <= i < |kept| => ChunkText(pl, path, content, kept[i]));
      var vectors, _, _ := AttachEmbeddings(pl.embed, ids, texts, pl.reuse);
      var chunks := seq(|kept|, i requires 0 <= i < |kept| =>
        Put(ids[i], ChunkDoc(path, texts[i], Digest(texts[i]), vectors[i])));
      KeptChunkWrites(pl, path, content, raws, skipped, chunks);
      WritesExact(pl, path, content, raws, skipped);
      var symbols := SymbolWrites(pl, path, content, raws, skipped);
      var actions := [FileWrite(pl, path, content, chunks, symbols)] + chunks + symbols
        + EdgeWrites(pl, path, content, raws, skipped);
      assert actions == FileWrites(pl, path, content);
      forall o | o in actions ensures o.Put? { FileWritesAreOwn(pl, path, content, o); }
      ghost var before := docs;
      deleted := DeleteFile(pl.scope, path);
      Bulk(actions);
      ApplyAllConcat(before, DeleteFileOps(pl.scope, path), actions);
      added, indexed := |kept|, true;
    }
  }

  ghost function DeletedNonEdges(ix: Index, scope: Scope, path: Path): set<DocId> {
    set id | id in ix && KindOf(id) != Edges && OfDeletedFile(id, ix[id], scope, path)
  }

  function KeptChunks(pl: Pipeline, path: Path, content: string, raws: seq<RawChunk>, skipped: set<DocId>): seq<RawChunk> {
    if raws == [] then []
    else
      KeptChunks(pl, path, content, raws[..|raws| - 1], skipped)
      + (var raw := raws[|raws| - 1]; if ChunkId(pl, path, content, raw) in skipped then [] else [raw])
  }

  /** The raw chunks of a file whose ids are not withheld for a high-confidence secret. */
  function ChunksToKeep(pl: Pipeline, path: Path, content: string): seq<RawChunk> {
    var raws := pl.rawChunks(path, content);
    KeptChunks(pl, path, content, raws, SkippedIds(pl, path, content, raws))
  }

  ghost function RemovedBy(ix: Index, kind: Kind, scope: Scope, path: Path): set<DocId> {
    set id | id in ix && Removes(Delete(kind, scope, path), id, ix[id])
  }

  /** The counts of the four requests, each on what the ones before it left. */
  lemma FourDeletes(ix: Index, scope: Scope, path: Path)
    ensures var a := Apply(ix, Delete(Chunks, scope, path));
            var b := Apply(a, Delete(Files, scope, path));
            |RemovedBy(ix, Chunks, scope, path)| + |RemovedBy(a, Files, scope, path)| + |RemovedBy(b, Symbols, scope, path)|
               == |DeletedNonEdges(ix, scope, path)|
  {
    var a := Apply(ix, Delete(Chunks, scope, path));
    RemovedAfter(ix, Chunks, Files, scope, path);
    RemovedAfter(ix, Chunks, Symbols, scope, path);
    RemovedAfter(a, Files, Symbols, scope, path);
    NonEdgesByKind(ix, scope, path);
  }

  /** Deleting one kind of document leaves what a request for another kind removes. */
  lemma RemovedAfter(ix: Index, first: Kind, kind: Kind, scope: Scope, path: Path)
    requires first != kind
    ensures RemovedBy(Apply(ix, Delete(first, scope, path)), kind, scope, path) == RemovedBy(ix, kind, scope, path)
  {}

  lemma NonEdgesByKind(ix: Index, scope: Scope, path: Path)
    ensures |DeletedNonEdges(ix, scope, path)|
         == |RemovedBy(ix, Chunks, scope, path)| + |RemovedBy(ix, Files, scope, path)|
            + |RemovedBy(ix, Symbols, scope, path)|
  {
    var x, y := RemovedBy(ix, Chunks, scope, path), RemovedBy(ix, Files, scope, path);
    var z := RemovedBy(ix, Symbols, scope, path);
    hide Matches;
    assert forall id :: KindOf(id) == Chunks || KindOf(id) == Files || KindOf(id) == Symbols || KindOf(id) == Edges;
    assert DeletedNonEdges(ix, scope, path) == x + y + z;
    hide RemovedBy, DeletedNonEdges;
    KindsApart(ix, scope, path);
    DisjointCard(x, y, z);
  }

  lemma KindsApart(ix: Index, scope: Scope, path: Path)
    ensures RemovedBy(ix, Chunks, scope, path) !! RemovedBy(ix, Files, scope, path)
    ensures RemovedBy(ix, Chunks, scope, path) + RemovedBy(ix, Files, scope, path) !! RemovedBy(ix, Symbols, scope, path)
  {}

  lemma SoundAt(ix: Index, embed: string -> Embedding, id: DocId)
    requires EmbeddingsSound(ix, embed) && id in ix
    ensures SoundDoc(ix[id], embed)
  {}

  ghost predicate AllHaveHash(ix: Index, ids: seq<DocId>, texts: seq<string>)
    requires |ids| == |texts|
  {
    forall k :: 0 <= k < |ids| ==> ids[k] in ix && ix[ids[k]].ChunkDoc? && ix[ids[k]].inputHash == Digest(texts[k])
  }

  ghost predicate NoneHasHash(ix: Index, ids: seq<DocId>, texts: seq<string>)
    requires |ids| == |texts|
  {
    forall k :: 0 <= k < |ids| ==>
      !(ids[k] in ix && ix[ids[k]].ChunkDoc? && ix[ids[k]].inputHash == Digest(texts[k]))
  }

  /** Nothing is requested if reuse is on and every hash is stored; all is, in order, if it is off or none is. */
  lemma RequestsAtTheExtremes(ix: Index, reuse: bool, ids: seq<DocId>, texts: seq<string>)
    requires |ids| == |texts|
    ensures reuse && AllHaveHash(ix, ids, texts) ==> Requested(Searched(ix, reuse), ids, texts) == []
    ensures !reuse || NoneHasHash(ix, ids, texts) ==> Requested(Searched(ix, reuse), ids, texts) == texts
  {
    var searched := Searched(ix, reuse);
    if reuse && AllHaveHash(ix, ids, texts) {
      NothingRequested(searched, ids, texts);
    }
    if !reuse || NoneHasHash(ix, ids, texts) {
      AllRequested(searched, ids, texts);
    }
  }

  lemma {:induction false} NothingRequested(ix: Index, ids: seq<DocId>, texts: seq<string>)
    requires |ids| == |texts| && AllHaveHash(ix, ids, texts)
    ensures Requested(ix, ids, texts) == []
  {
    var n := |texts| - 1;
    if texts != [] {
      assert Reusable(ix, ids[n], texts[n]);
      NothingRequested(ix, ids[..n], texts[..n]);
    }
  }

  lemma {:induction false} AllRequested(ix: Index, ids: seq<DocId>, texts: seq<string>)
    requires |ids| == |texts| && NoneHasHash(ix, ids, texts)
    ensures Requested(ix, ids, texts) == texts
  {
    var n := |texts| - 1;
    if texts != [] {
      assert !Reusable(ix, ids[n], texts[n]);
      AllRequested(ix, ids[..n], texts[..n]);
    }
  }

  lemma RequestedOfNothing(ix: Index, ids: seq<DocId>, texts: seq<string>)
    requires |ids| == |texts|
    ensures Requested(ix, ids[..0], texts[..0]) == []
  {}

  lemma RequestedStep(ix: Index, ids: seq<DocId>, texts: seq<string>, i: nat)
    requires |ids| == |texts| && i < |texts|
    ensures Requested(ix, ids[..i + 1], texts[..i + 1])
         == Requested(ix, ids[..i], texts[..i]) + if Reusable(ix, ids[i], texts[i]) then [] else [texts[i]]
  {
    assert ids[..i + 1][..i] == ids[..i] && texts[..i + 1][..i] == texts[..i];
  }

  lemma {:induction false} RequestedPrefix(ix: Index, ids: seq<DocId>, texts: seq<string>, n: nat)
    requires |ids| == |texts| && n <= |texts|
    ensures Requested(ix, ids[..n], texts[..n]) <= Requested(ix, ids, texts)
    decreases |texts|
  {
    if n < |texts| {
      var m := |texts| - 1;
      RequestedPrefix(ix, ids[..m], texts[..m], n);
      assert ids[..m][..n] == ids[..n] && texts[..m][..n] == texts[..n];
    } else {
      assert ids[..n] == ids && texts[..n] == texts;
    }
  }

  /** Each position that cannot reuse a vector takes the next request, which is for its own text. */
  lemma NextRequest(ix: Index, ids: seq<DocId>, texts: seq<string>, i: nat)
    requires |ids| == |texts| && i < |texts|
    ensures var used := |Requested(ix, ids[..i], texts[..i])|;
            if Reusable(ix, ids[i], texts[i]) then |Requested(ix, ids[..i + 1], texts[..i + 1])| == used
            else
              && |Requested(ix, ids[..i + 1], texts[..i + 1])| == used + 1
              && used < |Requested(ix, ids, texts)| && Requested(ix, ids, texts)[used] == texts[i]
  {
    hide Requested, Reusable;
    RequestedStep(ix, ids, texts, i);
    RequestedPrefix(ix, ids, texts, i + 1);
  }

  /** With its own text embedded at every kept position, the chunk list is the one the file calls for. */
  lemma {:induction false} KeptChunkWrites(pl: Pipeline, path: Path, content: string, raws: seq<RawChunk>,
                                           skipped: set<DocId>, chunks: seq<Op>)
    requires var kept := KeptChunks(pl, path, content, raws, skipped);
             |chunks| == |kept| && forall i :: 0 <= i < |kept| ==> chunks[i] == ChunkWrite(pl, path, content, kept[i])
    ensures chunks == ChunkWrites(pl, path, content, raws, skipped)
  {
    if raws != [] {
      var init, last := raws[..|raws| - 1], raws[|raws| - 1];
      if ChunkId(pl, path, content, last) in skipped {
        KeptChunkWrites(pl, path, content, init, skipped, chunks);
      } else {
        KeptChunkWrites(pl, path, content, init, skipped, chunks[..|chunks| - 1]);
      }
    }
  }

  lemma FileWriteIsSound(pl: Pipeline, path: Path, content: string, o: Op)
    requires o in FileWrites(pl, path, content)
    ensures o.Put? && SoundDoc(o.doc, pl.embed)
  {
    var raws := pl.rawChunks(path, content);
    var skipped := SkippedIds(pl, path, content, raws);
    WritesExact(pl, path, content, raws, skipped);
    hide SkippedIds, ChunkWrites, SymbolWrites, EdgeWrites;
  }

  /** Storing a file's chunks keeps every stored vector the embedding of its text. */
  lemma IndexFileKeepsSound(ix: Index, pl: Pipeline, path: Path, content: string)
    requires EmbeddingsSound(ix, pl.embed)
    ensures EmbeddingsSound(ApplyAll(ix, IndexFileOps(pl, path, content)), pl.embed)
  {
    forall o | o in IndexFileOps(pl, path, content) && o.Put? ensures SoundDoc(o.doc, pl.embed) {
      IndexFileOpsCases(pl, path, content, o);
      FileWriteIsSound(pl, path, content, o);
    }
    SoundPutsKeepSound(ix, IndexFileOps(pl, path, content), pl.embed);
  }

  lemma {:induction false} SoundPutsKeepSound(ix: Index, ops: seq<Op>, embed: string -> Embedding)
    requires EmbeddingsSound(ix, embed)
    requires forall o :: o in ops && o.Put? ==> SoundDoc(o.doc, embed)
    ensures EmbeddingsSound(ApplyAll(ix, ops), embed)
  {
    if ops != [] { SoundPutsKeepSound(ix, ops[..|ops| - 1], embed); }
  }

  // ---------------------------------------------------------------- one whole run

  function Flatten(parts: seq<seq<Op>>): seq<Op> {
    if parts == [] then [] else Flatten(parts[..|parts| - 1]) + parts[|parts| - 1]
  }

  function OneAfterAnother(parts: seq<seq<Op>>): seq<Tagged> {
    if parts == [] then [] else OneAfterAnother(parts[..|parts| - 1]) + TagAll(parts[|parts| - 1], |parts| - 1)
  }

  lemma {:induction false} ByConcat(a: seq<Tagged>, b: seq<Tagged>, k: nat)
    ensures By(a + b, k) == By(a, k) + By(b, k)
  {
    if b == [] {
      assert a + b == a;
    } else {
      ByConcat(a, b[..|b| - 1], k);
      assert (a + b)[..|a + b| - 1] == a + b[..|b| - 1];
    }
  }

  lemma {:induction false} ByTagAll(ops: seq<Op>, j: nat, k: nat)
    ensures By(TagAll(ops, j), k) == if j == k then ops else []
  {
    if ops != [] {
      ByTagAll(ops[..|ops| - 1], j, k);
      assert TagAll(ops, j)[..|ops| - 1] == TagAll(ops[..|ops| - 1], j);
    }
  }

  lemma {:induction false} ByOneAfterAnother(parts: seq<seq<Op>>, k: nat)
    ensures By(OneAfterAnother(parts), k) == if k < |parts| then parts[k] else []
    ensures forall i :: 0 <= i < |OneAfterAnother(parts)| ==> OneAfterAnother(parts)[i].agent < |parts|
    ensures Untag(OneAfterAnother(parts)) == Flatten(parts)
  {
    if parts != [] {
      var init, last := parts[..|parts| - 1], parts[|parts| - 1];
      ByOneAfterAnother(init, k);
      ByConcat(OneAfterAnother(init), TagAll(last, |parts| - 1), k);
      ByTagAll(last, |parts| - 1, k);
      assert Untag(OneAfterAnother(parts)) == Untag(OneAfterAnother(init)) + Untag(TagAll(last, |parts| - 1));
      assert Untag(TagAll(last, |parts| - 1)) == last;
    }
  }

  /** Indexing the files one after another is one of the executions of the job. */
  lemma SequentialIsExecution(job: Job)
    ensures IsExecution(job, DeletePhase(job) + Flatten(Parts(job)))
  {
    var parts := Parts(job);
    forall k: nat ensures By(OneAfterAnother(parts), k) == if k < |parts| then parts[k] else [] {
      ByOneAfterAnother(parts, k);
    }
    ByOneAfterAnother(parts, 0);
    assert IsExecutionBy(job, DeletePhase(job) + Flatten(parts), OneAfterAnother(parts));
  }

  lemma {:induction false} SortedUnique(a: seq<string>, b: seq<string>)
    requires StrictlySorted(a) && StrictlySorted(b)
    requires forall x :: x in a <==> x in b
    ensures a == b
  {
    assert a == [] <==> b == [] by {
      if a != [] { assert a[0] in b; }
      if b != [] { assert b[0] in a; }
    }
    if a != [] {
      HeadsAgree(a, b);
      forall x ensures x in a[1..] <==> x in b[1..] {
        TailMembers(a, x);
        TailMembers(b, x);
      }
      SortedUnique(a[1..], b[1..]);
      assert a == [a[0]] + a[1..] && b == [b[0]] + b[1..];
    }
  }

  lemma HeadsAgree(a: seq<string>, b: seq<string>)
    requires StrictlySorted(a) && StrictlySorted(b) && a != [] && b != []
    requires forall x :: x in a <==> x in b
    ensures a[0] == b[0]
  {
    assert a[0] in b && b[0] in a;
    if a[0] != b[0] {
      assert Less(b[0], a[0]) && Less(a[0], b[0]);
      LessAsymmetric(a[0], b[0]);
    }
  }

  lemma TailMembers(a: seq<string>, x: string)
    requires StrictlySorted(a) && a != []
    ensures x in a[1..] <==> x in a && x != a[0]
  {
    if x in a[1..] { LessIrreflexive(a[0]); }
    assert a == [a[0]] + a[1..];
  }

  /** One turn of the loop over the changes. */
  method ReadChange(index: CodeIndex, job: Job, c: Change) returns (renamed: seq<Path>, toIndex: seq<Path>)
    modifies index
    ensures index.docs == ApplyAll(old(index.docs), DeleteAll(job.pl.scope, DeletedAtOnce(c, job.tree)))
    ensures forall p :: p in renamed <==> p in MovedFrom(c)
    ensures toIndex == IndexedBy(c, job.tree)
  {
    renamed, toIndex := [], [];
    DeleteAllOfOne(index.docs, job.pl.scope, DeletedAtOnce(c, job.tree));
    var n;
    if c.deleted {
      n := index.DeleteFile(job.pl.scope, c.oldPath);
      return;
    }
    if c.renamed { renamed := renamed + [c.oldPath]; }
    if c.newPath in job.tree {
      if c.renamed {
        var indexed := index.FileHash(job.pl.scope, c.oldPath);
        if indexed == Some(Digest(job.tree[c.newPath])) { renamed := renamed + [c.oldPath]; }
      }
      toIndex := toIndex + [c.newPath];
    } else {
      n := index.DeleteFile(job.pl.scope, c.newPath);
    }
  }

  lemma DeleteAllOfOne(ix: Index, scope: Scope, paths: seq<Path>)
    requires |paths| <= 1
    ensures ApplyAll(ix, DeleteAll(scope, paths)) == if paths == [] then ix else ApplyAll(ix, DeleteFileOps(scope, paths[0]))
  {
    if paths != [] { assert DeleteAll(scope, paths) == DeleteFileOps(scope, paths[0]); }
  }

  /** The loop over the changes: deletions happen at once, renamed-away and indexable paths are collected. */
  method ReadChanges(index: CodeIndex, job: Job) returns (renamed: seq<Path>, toIndex: seq<Path>)
    requires EmbeddingsSound(index.docs, job.pl.embed)
    modifies index
    ensures index.docs == ApplyAll(old(index.docs), DeleteAll(job.pl.scope, FirstDeleted(job.changes, job.tree)))
    ensures forall p :: p in renamed <==> p in RenamedAway(job.changes)
    ensures toIndex == ToIndex(job.changes, job.tree)
    ensures EmbeddingsSound(index.docs, job.pl.embed)
  {
    renamed, toIndex := [], [];
    var changes, tree := job.changes, job.tree;
    hide EmbeddingsSound, ApplyAll, DeleteAll, DeletedAtOnce, MovedFrom, IndexedBy;
    DeleteAllOfOne(index.docs, job.pl.scope, []);
    for i := 0 to |changes|
      invariant index.docs == ApplyAll(old(index.docs), DeleteAll(job.pl.scope, FirstDeleted(changes[..i], tree)))
      invariant forall p :: p in renamed <==> p in RenamedAway(changes[..i])
      invariant toIndex == ToIndex(changes[..i], tree)
    {
      assert changes[..i + 1][..i] == changes[..i] && changes[..i + 1][i] == changes[i];
      DeleteAllConcat(old(index.docs), job.pl.scope, FirstDeleted(changes[..i], tree), DeletedAtOnce(changes[i], tree));
      var moved, indexable := ReadChange(index, job, changes[i]);
      renamed, toIndex := renamed + moved, toIndex + indexable;
    }
    assert changes[..|changes|] == changes;
    DeletesKeepSound(old(index.docs), job.pl, FirstDeleted(changes, tree));
  }

  lemma {:induction false} DeleteAllConcat(ix: Index, scope: Scope, a: seq<Path>, b: seq<Path>)
    ensures ApplyAll(ix, DeleteAll(scope, a + b)) == ApplyAll(ApplyAll(ix, DeleteAll(scope, a)), DeleteAll(scope, b))
  {
    if b == [] {
      assert a + b == a;
    } else {
      var init := b[..|b| - 1];
      DeleteAllConcat(ix, scope, a, init);
      assert a + b == (a + init) + [b[|b| - 1]] && b == init + [b[|b| - 1]];
      DeleteAllOneMore(ix, scope, a + init, b[|b| - 1]);
      DeleteAllOneMore(ApplyAll(ix, DeleteAll(scope, a)), scope, init, b[|b| - 1]);
    }
  }

  lemma DeleteAllOneMore(ix: Index, scope: Scope, paths: seq<Path>, p: Path)
    ensures ApplyAll(ix, DeleteAll(scope, paths + [p]))
         == ApplyAll(ApplyAll(ix, DeleteAll(scope, paths)), DeleteFileOps(scope, p))
  {
    assert (paths + [p])[..|paths|] == paths;
    ApplyAllConcat(ix, DeleteAll(scope, paths), DeleteFileOps(scope, p));
  }

  lemma DeletesKeepSound(ix: Index, pl: Pipeline, paths: seq<Path>)
    requires EmbeddingsSound(ix, pl.embed)
    ensures EmbeddingsSound(ApplyAll(ix, DeleteAll(pl.scope, paths)), pl.embed)
  {
    forall o | o in DeleteAll(pl.scope, paths) ensures !o.Put? { DeleteAllExact(pl.scope, paths, o); }
    SoundPutsKeepSound(ix, DeleteAll(pl.scope, paths), pl.embed);
  }

  method DeletePaths(index: CodeIndex, pl: Pipeline, paths: seq<Path>)
    requires EmbeddingsSound(index.docs, pl.embed)
    modifies index
    ensures index.docs == ApplyAll(old(index.docs), DeleteAll(pl.scope, paths))
    ensures EmbeddingsSound(index.docs, pl.embed)
  {
    hide EmbeddingsSound;
    for i := 0 to |paths|
      invariant index.docs == ApplyAll(old(index.docs), DeleteAll(pl.scope, paths[..i]))
    {
      assert paths[..i + 1] == paths[..i] + [paths[i]];
      DeleteAllOneMore(old(index.docs), pl.scope, paths[..i], paths[i]);
      hide ApplyAll, DeleteAll;
      var n := index.DeleteFile(pl.scope, paths[i]);
    }
    assert paths[..|paths|] == paths;
    DeletesKeepSound(old(index.docs), pl, paths);
  }

  method IndexPaths(index: CodeIndex, job: Job, paths: seq<Path>)
    requires EmbeddingsSound(index.docs, job.pl.embed)
    requires forall p :: p in paths ==> p in job.tree
    modifies index
    ensures index.docs == ApplyAll(old(index.docs), Flatten(IndexParts(job, paths)))
    ensures EmbeddingsSound(index.docs, job.pl.embed)
  {
    hide EmbeddingsSound;
    for i := 0 to |paths|
      invariant index.docs == ApplyAll(old(index.docs), Flatten(IndexParts(job, paths[..i])))
      invariant EmbeddingsSound(index.docs, job.pl.embed)
    {
      FlattenOneMore(old(index.docs), job, paths, i);
      hide ApplyAll, Flatten;
      var added, deleted, indexed := index.IndexFile(job.pl, paths[i], job.tree[paths[i]]);
    }
    assert paths[..|paths|] == paths;
  }

  lemma FlattenOneMore(ix: Index, job: Job, paths: seq<Path>, i: nat)
    requires i < |paths| && forall p :: p in paths ==> p in job.tree
    ensures ApplyAll(ix, Flatten(IndexParts(job, paths[..i + 1])))
         == ApplyAll(ApplyAll(ix, Flatten(IndexParts(job, paths[..i]))), IndexFileOps(job.pl, paths[i], job.tree[paths[i]]))
  {
    var parts := IndexParts(job, paths[..i + 1]);
    assert parts[..i] == IndexParts(job, paths[..i]);
    ApplyAllConcat(ix, Flatten(IndexParts(job, paths[..i])), parts[i]);
  }

  /**
   * `incremental_index_project` with one file worker: what it does to the index is one execution
   * of the job, so everything proved of executions holds of it.
   */
  method IncrementalIndexProject(index: CodeIndex, job: Job) returns (ghost ops: seq<Op>)
    requires EmbeddingsSound(index.docs, job.pl.embed)
    modifies index
    ensures IsExecution(job, ops) && index.docs == ApplyAll(old(index.docs), ops)
    ensures EmbeddingsSound(index.docs, job.pl.embed)
  {
    ghost var start := index.docs;
    PlanExact(job);
    var renamed, toIndex := ReadChanges(index, job);
    SortedUnique(SortedNames(renamed), SortedNames(RenamedAway(job.changes)));
    DeletePaths(index, job.pl, SortedNames(renamed));
    ghost var first, second := DeleteAll(job.pl.scope, FirstDeleted(job.changes, job.tree)),
                               DeleteAll(job.pl.scope, SortedNames(renamed));
    ApplyAllConcat(start, first, second);
    IndexPaths(index, job, toIndex);
    ops := DeletePhase(job) + Flatten(Parts(job));
    ApplyAllConcat(start, DeletePhase(job), Flatten(Parts(job)));
    SequentialIsExecution(job);
  }
}
