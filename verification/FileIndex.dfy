/**
 * What indexing one file writes (apps/indexing/indexing_service.py `_index_file` and
 * apps/chunking/chunk_builder.py `build_file`).  Parsing, redaction, classification and embedding
 * are functions the pipeline is built from.
 */
module FileIndex {
  import opened Common
  import opened SearchIndex

  /** A raw chunk with the edge targets found in it: imports, calls, references and so on, in source order. */
  datatype RawChunk = RawChunk(
    lineStart: nat,
    lineEnd: nat,
    name: Option<string>,
    parent: Option<string>,
    targets: seq<(EdgeType, string)>)

  datatype Redaction = Redaction(text: string, highConfidence: nat)

  datatype Pipeline = Pipeline(
    scope: Scope,
    repo: string,
    shouldIndex: (Path, string) -> bool,
    rawChunks: (Path, string) -> seq<RawChunk>,
    moduleOf: Path -> string,
    redacted: (Path, string, RawChunk) -> Redaction,
    embed: string -> Embedding,
    reuse: bool,
    skipSecrets: bool)

  function FileId(pl: Pipeline, path: Path): DocId {
    DocId(pl.scope, FileKey(path))
  }

  function ChunkId(pl: Pipeline, path: Path, content: string, raw: RawChunk): DocId {
    DocId(pl.scope, ChunkKey(path, Digest(content), raw.lineStart, raw.lineEnd, raw.name))
  }

  predicate Named(raw: RawChunk) {
    raw.name.Some? && raw.name.value != ""
  }

  /** Join with a dot, leaving out empty parts. */
  function Dot(a: string, b: string): string {
    if a == "" then b else if b == "" then a else a + "." + b
  }

  /** The FQN depends on the path only through `moduleOf`, which drops the file extension. */
  function FqnOf(pl: Pipeline, path: Path, raw: RawChunk): Fqn
    requires Named(raw)
  {
    var parent := if raw.parent.Some? then raw.parent.value else "";
    Fqn(Dot(Dot(Dot(pl.repo, pl.moduleOf(path)), parent), raw.name.value))
  }

  function ChunkText(pl: Pipeline, path: Path, content: string, raw: RawChunk): string {
    pl.redacted(path, content, raw).text
  }

  function ChunkWrite(pl: Pipeline, path: Path, content: string, raw: RawChunk): Op {
    var text := ChunkText(pl, path, content, raw);
    Put(ChunkId(pl, path, content, raw), ChunkDoc(path, text, Digest(text), pl.embed(text)))
  }

  function SymbolWrite(pl: Pipeline, path: Path, content: string, raw: RawChunk): Op
    requires Named(raw)
  {
    var fqn := FqnOf(pl, path, raw);
    Put(DocId(pl.scope, SymbolKey(fqn)), SymbolDoc(path, fqn, ChunkId(pl, path, content, raw)))
  }

  function EdgeWrite(pl: Pipeline, path: Path, content: string, raw: RawChunk, target: (EdgeType, string)): Op {
    var chunk := ChunkId(pl, path, content, raw);
    Put(DocId(pl.scope, EdgeKey(path, chunk, target.0, target.1)), EdgeDoc(path, chunk, target.1, None))
  }

  /** The chunk ids withheld because some chunk with that id holds a high-confidence secret. */
  function SkippedIds(pl: Pipeline, path: Path, content: string, raws: seq<RawChunk>): set<DocId> {
    if !pl.skipSecrets then {}
    else set raw | raw in raws && pl.redacted(path, content, raw).highConfidence > 0 :: ChunkId(pl, path, content, raw)
  }

  function ChunkWrites(pl: Pipeline, path: Path, content: string, raws: seq<RawChunk>, skipped: set<DocId>): seq<Op> {
    if raws == [] then []
    else
      ChunkWrites(pl, path, content, raws[..|raws| - 1], skipped)
      + (var raw := raws[|raws| - 1];
         if ChunkId(pl, path, content, raw) in skipped then [] else [ChunkWrite(pl, path, content, raw)])
  }

  function SymbolWrites(pl: Pipeline, path: Path, content: string, raws: seq<RawChunk>, skipped: set<DocId>): seq<Op> {
    if raws == [] then []
    else
      SymbolWrites(pl, path, content, raws[..|raws| - 1], skipped)
      + (var raw := raws[|raws| - 1];
         if !Named(raw) || ChunkId(pl, path, content, raw) in skipped then [] else [SymbolWrite(pl, path, content, raw)])
  }

  function EdgesOf(pl: Pipeline, path: Path, content: string, raw: RawChunk): seq<Op> {
    seq(|raw.targets|, i requires 0 <= i < |raw.targets| => EdgeWrite(pl, path, content, raw, raw.targets[i]))
  }

  function EdgeWrites(pl: Pipeline, path: Path, content: string, raws: seq<RawChunk>, skipped: set<DocId>): seq<Op> {
    if raws == [] then []
    else
      EdgeWrites(pl, path, content, raws[..|raws| - 1], skipped)
      + (var raw := raws[|raws| - 1];
         if ChunkId(pl, path, content, raw) in skipped then [] else EdgesOf(pl, path, content, raw))
  }

  function FileWrite(pl: Pipeline, path: Path, content: string, chunks: seq<Op>, symbols: seq<Op>): Op
    requires forall o :: o in chunks ==> o.Put?
    requires forall o :: o in symbols ==> o.Put? && o.doc.SymbolDoc?
  {
    Put(FileId(pl, path),
        FileDoc(path, Digest(content),
                seq(|chunks|, i requires 0 <= i < |chunks| => chunks[i].id),
                seq(|symbols|, i requires 0 <= i < |symbols| => symbols[i].doc.fqn)))
  }

  /** Shape of the chunk, symbol and edge writes: which raw chunk each comes from. */
  lemma {:induction false} WritesExact(pl: Pipeline, path: Path, content: string, raws: seq<RawChunk>, skipped: set<DocId>)
    ensures forall o :: o in ChunkWrites(pl, path, content, raws, skipped) <==>
              exists raw :: raw in raws && ChunkId(pl, path, content, raw) !in skipped
                            && o == ChunkWrite(pl, path, content, raw)
    ensures forall o :: o in SymbolWrites(pl, path, content, raws, skipped) <==>
              exists raw :: raw in raws && Named(raw) && ChunkId(pl, path, content, raw) !in skipped
                            && o == SymbolWrite(pl, path, content, raw)
    ensures forall o :: o in EdgeWrites(pl, path, content, raws, skipped) <==>
              exists raw, t :: raw in raws && t in raw.targets && ChunkId(pl, path, content, raw) !in skipped
                               && o == EdgeWrite(pl, path, content, raw, t)
  {
    if raws != [] {
      var init, last := raws[..|raws| - 1], raws[|raws| - 1];
      assert raws == init + [last];
      WritesExact(pl, path, content, init, skipped);
      EdgesExact(pl, path, content, last);
    }
  }

  lemma EdgesExact(pl: Pipeline, path: Path, content: string, raw: RawChunk)
    ensures forall o :: o in EdgesOf(pl, path, content, raw) <==>
              exists t :: t in raw.targets && o == EdgeWrite(pl, path, content, raw, t)
  {
    var edges := EdgesOf(pl, path, content, raw);
    forall t | t in raw.targets ensures EdgeWrite(pl, path, content, raw, t) in edges {
      var i :| 0 <= i < |raw.targets| && raw.targets[i] == t;
      assert edges[i] == EdgeWrite(pl, path, content, raw, t);
    }
  }

  /** The bulk request of replace_file: the file document, then chunks, symbols and edges. */
  function FileWrites(pl: Pipeline, path: Path, content: string): seq<Op> {
    var raws := pl.rawChunks(path, content);
    var skipped := SkippedIds(pl, path, content, raws);
    var chunks := ChunkWrites(pl, path, content, raws, skipped);
    var symbols := SymbolWrites(pl, path, content, raws, skipped);
    WritesExact(pl, path, content, raws, skipped);
    [FileWrite(pl, path, content, chunks, symbols)] + chunks + symbols + EdgeWrites(pl, path, content, raws, skipped)
  }

  /** delete_file: the four delete-by-query requests in the order they are sent. */
  function DeleteFileOps(scope: Scope, path: Path): seq<Op> {
    [Delete(Chunks, scope, path), Delete(Files, scope, path), Delete(Symbols, scope, path), Delete(Edges, scope, path)]
  }

  /** `_index_file`: a file that should not be indexed is deleted, any other is replaced. */
  function IndexFileOps(pl: Pipeline, path: Path, content: string): seq<Op> {
    if pl.shouldIndex(path, content) then DeleteFileOps(pl.scope, path) + FileWrites(pl, path, content)
    else DeleteFileOps(pl.scope, path)
  }

  /** The document indexing a file leaves at `id`, if any. */
  function Target(pl: Pipeline, path: Path, content: string, id: DocId): Option<Doc> {
    if !pl.shouldIndex(path, content) then None
    else
      match LastRelevant(FileWrites(pl, path, content), id, path)
      case Some(Put(_, d)) => Some(d)
      case _ => None
  }

  // ---------------------------------------------------------------- facts about one file's writes

  /** A write of `path`: in the pipeline's scope, to a document of that file only. */
  ghost predicate OwnWrite(pl: Pipeline, path: Path, o: Op) {
    && o.Put? && o.id.scope == pl.scope
    && (forall p :: Matches(o.doc, p) <==> p == path)
    && (match o.id.key
        case FileKey(p) => p == path
        case ChunkKey(p, _, _, _, _) => p == path
        case SymbolKey(_) => true
        case EdgeKey(p, _, _, _) => p == path)
  }

  lemma FileWritesAreOwn(pl: Pipeline, path: Path, content: string, o: Op)
    requires o in FileWrites(pl, path, content)
    ensures OwnWrite(pl, path, o)
  {
    var raws := pl.rawChunks(path, content);
    var skipped := SkippedIds(pl, path, content, raws);
    WritesExact(pl, path, content, raws, skipped);
  }

  lemma IndexFileOpsCases(pl: Pipeline, path: Path, content: string, o: Op)
    requires o in IndexFileOps(pl, path, content)
    ensures if o.Delete? then o.scope == pl.scope && o.path == path
            else pl.shouldIndex(path, content) && o in FileWrites(pl, path, content)
  {
    if o in FileWrites(pl, path, content) { FileWritesAreOwn(pl, path, content, o); }
  }

  lemma TargetIsWritten(pl: Pipeline, path: Path, content: string, id: DocId)
    ensures Target(pl, path, content, id).Some? <==>
              pl.shouldIndex(path, content) && exists d :: Put(id, d) in FileWrites(pl, path, content)
    ensures Target(pl, path, content, id).Some? ==>
              && Put(id, Target(pl, path, content, id).value) in FileWrites(pl, path, content)
              && LastRelevant(FileWrites(pl, path, content), id, path) == Some(Put(id, Target(pl, path, content, id).value))
  {
    var writes := FileWrites(pl, path, content);
    forall o | o in writes ensures o.Put? { FileWritesAreOwn(pl, path, content, o); }
    NoneRelevant(writes, id, path);
    if LastRelevant(writes, id, path).Some? { LastRelevantIn(writes, id, path); }
    if d :| Put(id, d) in writes { assert Relevant(Put(id, d), id, path); }
  }

  /** A written document belongs to its file, in the pipeline's scope. */
  lemma TargetOwned(pl: Pipeline, path: Path, content: string, id: DocId)
    requires Target(pl, path, content, id).Some?
    ensures OwnWrite(pl, path, Put(id, Target(pl, path, content, id).value))
  {
    TargetIsWritten(pl, path, content, id);
    FileWritesAreOwn(pl, path, content, Put(id, Target(pl, path, content, id).value));
  }

  lemma OthersNotRelevant(pl: Pipeline, path: Path, content: string, id: DocId, owner: Path, o: Op)
    requires owner != path && Target(pl, path, content, id).None? && o in IndexFileOps(pl, path, content)
    ensures !Relevant(o, id, owner)
  {
    IndexFileOpsCases(pl, path, content, o);
    TargetIsWritten(pl, path, content, id);
    hide Target, FileWrites, IndexFileOps;
    if o.Put? { assert o == Put(o.id, o.doc); }
  }

  /** Indexing a file settles each of its documents on its target, whatever was there before. */
  lemma IndexFileLastRelevant(pl: Pipeline, path: Path, content: string, id: DocId, owner: Path)
    ensures owner == path && Target(pl, path, content, id).Some? ==>
              LastRelevant(IndexFileOps(pl, path, content), id, owner) == Some(Put(id, Target(pl, path, content, id).value))
    ensures owner != path && Target(pl, path, content, id).None? ==>
              LastRelevant(IndexFileOps(pl, path, content), id, owner).None?
  {
    var ops := IndexFileOps(pl, path, content);
    TargetIsWritten(pl, path, content, id);
    LastRelevantConcat(DeleteFileOps(pl.scope, path), FileWrites(pl, path, content), id, owner);
    hide Target, FileWrites, LastRelevant, Relevant, DeleteFileOps;
    if owner != path && Target(pl, path, content, id).None? {
      forall o | o in ops ensures !Relevant(o, id, owner) { OthersNotRelevant(pl, path, content, id, owner, o); }
    }
    NoneRelevant(ops, id, owner);
  }

  /** The file document records the digest, so two contents of one path are never confused. */
  lemma FileTarget(pl: Pipeline, path: Path, content: string, p: Path)
    ensures Target(pl, path, content, FileId(pl, p)).Some? <==> pl.shouldIndex(path, content) && p == path
    ensures Target(pl, path, content, FileId(pl, p)).Some? ==>
              && Target(pl, path, content, FileId(pl, p)).value.FileDoc?
              && Target(pl, path, content, FileId(pl, p)).value.digest == Digest(content)
  {
    var writes := FileWrites(pl, path, content);
    TargetIsWritten(pl, path, content, FileId(pl, p));
    var raws := pl.rawChunks(path, content);
    WritesExact(pl, path, content, raws, SkippedIds(pl, path, content, raws));
    forall o | o in writes && o.Put? && o.id == FileId(pl, p) ensures o == writes[0] && p == path {}
    assert writes[0] == Put(FileId(pl, path), writes[0].doc) && writes[0] in writes;
  }

  // ---------------------------------------------------------------- what is written, said field by field

  function ParentText(raw: RawChunk): string {
    if raw.parent.Some? then raw.parent.value else ""
  }

  function Prefix(part: string): string {
    if part == "" then "" else part + "."
  }

  /** An FQN is the name, behind the repository, the module and the enclosing names, each with a dot unless it is empty. */
  lemma FqnText(pl: Pipeline, path: Path, raw: RawChunk)
    requires Named(raw)
    ensures FqnOf(pl, path, raw).text
         == Prefix(pl.repo) + Prefix(pl.moduleOf(path)) + Prefix(ParentText(raw)) + raw.name.value
  {
    var r, m, p := pl.repo, pl.moduleOf(path), ParentText(raw);
    DotIsPrefix(r, m);
    DotIsPrefix(Dot(r, m), p);
    DotIsPrefix(Dot(Dot(r, m), p), raw.name.value);
  }

  lemma DotIsPrefix(a: string, b: string)
    ensures b != "" ==> Dot(a, b) == Prefix(a) + b
    ensures Prefix(Dot(a, b)) == Prefix(a) + Prefix(b)
  {}

  lemma MiddleIs(p: string, x: string, y: string, e: string)
    requires p + x + e == p + y + e
    ensures x == y
  {
    assert |x| == |y|;
    assert (p + x + e)[|p|..|p| + |x|] == x && (p + y + e)[|p|..|p| + |y|] == y;
  }

  lemma DottedMiddle(p: string, x: string, y: string, name: string)
    requires name != "" && Dot(Dot(p, x), name) == Dot(Dot(p, y), name)
    ensures x == y
  {
    var before, e := if p == "" then "" else p + ".", "." + name;
    if x != "" { assert Dot(Dot(p, x), name) == before + x + e; }
    if y != "" { assert Dot(Dot(p, y), name) == before + y + e; }
    assert Dot(Dot(p, ""), name) == before + name;
    if x != "" && y != "" { MiddleIs(before, x, y, e); }
  }

  /** Two definitions of one name in a file share their FQN if and only if they have the same parent. */
  lemma SameFqnIff(pl: Pipeline, path: Path, a: RawChunk, b: RawChunk)
    requires Named(a) && Named(b) && a.name == b.name
    ensures FqnOf(pl, path, a) == FqnOf(pl, path, b) <==> ParentText(a) == ParentText(b)
  {
    if FqnOf(pl, path, a) == FqnOf(pl, path, b) {
      DottedMiddle(Dot(pl.repo, pl.moduleOf(path)), ParentText(a), ParentText(b), a.name.value);
    }
  }

  /** The chunk id of a raw chunk. */
  predicate IdOf(id: DocId, pl: Pipeline, path: Path, content: string, raw: RawChunk) {
    id == DocId(pl.scope, ChunkKey(path, Digest(content), raw.lineStart, raw.lineEnd, raw.name))
  }

  /** The setting is on, and some raw chunk with this id holds a high-confidence secret. */
  ghost predicate Withheld(id: DocId, pl: Pipeline, path: Path, content: string) {
    pl.skipSecrets && exists raw :: raw in pl.rawChunks(path, content) && IdOf(id, pl, path, content, raw)
                                    && pl.redacted(path, content, raw).highConfidence > 0
  }

  lemma SkippedIsWithheld(pl: Pipeline, path: Path, content: string, id: DocId)
    ensures id in SkippedIds(pl, path, content, pl.rawChunks(path, content)) <==> Withheld(id, pl, path, content)
  {}

  lemma KindsOfWrites(pl: Pipeline, path: Path, content: string, id: DocId, d: Doc)
    requires Put(id, d) in FileWrites(pl, path, content)
    ensures var raws := pl.rawChunks(path, content);
            var skipped := SkippedIds(pl, path, content, raws);
            match KindOf(id)
            case Files => Put(id, d) == FileWrites(pl, path, content)[0]
            case Chunks => Put(id, d) in ChunkWrites(pl, path, content, raws, skipped)
            case Symbols => Put(id, d) in SymbolWrites(pl, path, content, raws, skipped)
            case Edges => Put(id, d) in EdgeWrites(pl, path, content, raws, skipped)
  {
    var raws := pl.rawChunks(path, content);
    WritesExact(pl, path, content, raws, SkippedIds(pl, path, content, raws));
  }

  lemma WritesInFile(pl: Pipeline, path: Path, content: string, o: Op)
    ensures var raws := pl.rawChunks(path, content);
            var skipped := SkippedIds(pl, path, content, raws);
            && (o in ChunkWrites(pl, path, content, raws, skipped) ==> o in FileWrites(pl, path, content))
            && (o in SymbolWrites(pl, path, content, raws, skipped) ==> o in FileWrites(pl, path, content))
            && (o in EdgeWrites(pl, path, content, raws, skipped) ==> o in FileWrites(pl, path, content))
  {}

  /** The chunk documents: one for each raw chunk whose id is not withheld, with its redacted text, hash and vector. */
  lemma ChunksWritten(pl: Pipeline, path: Path, content: string, id: DocId, d: Doc)
    requires KindOf(id) == Chunks
    ensures Put(id, d) in FileWrites(pl, path, content)
       <==> !Withheld(id, pl, path, content) && exists raw ::
              && raw in pl.rawChunks(path, content) && IdOf(id, pl, path, content, raw)
              && d.ChunkDoc? && d.path == path && d.text == pl.redacted(path, content, raw).text
              && d.inputHash == Digest(d.text) && d.embedding == pl.embed(d.text)
  {
    var raws := pl.rawChunks(path, content);
    SkippedIsWithheld(pl, path, content, id);
    WritesExact(pl, path, content, raws, SkippedIds(pl, path, content, raws));
    hide SkippedIds, FileWrites, ChunkWrites, SymbolWrites, EdgeWrites, Withheld;
    WritesInFile(pl, path, content, Put(id, d));
    if Put(id, d) in FileWrites(pl, path, content) { KindsOfWrites(pl, path, content, id, d); }
  }

  /** The symbol documents: one for each named raw chunk not withheld, under its FQN, defined in its own chunk. */
  lemma SymbolsWritten(pl: Pipeline, path: Path, content: string, id: DocId, d: Doc)
    requires KindOf(id) == Symbols
    ensures Put(id, d) in FileWrites(pl, path, content)
       <==> exists raw ::
              && raw in pl.rawChunks(path, content) && Named(raw)
              && id == DocId(pl.scope, SymbolKey(FqnOf(pl, path, raw)))
              && d.SymbolDoc? && d.path == path && d.fqn == FqnOf(pl, path, raw)
              && IdOf(d.definitionChunk, pl, path, content, raw) && !Withheld(d.definitionChunk, pl, path, content)
  {
    var raws := pl.rawChunks(path, content);
    forall c { SkippedIsWithheld(pl, path, content, c); }
    WritesExact(pl, path, content, raws, SkippedIds(pl, path, content, raws));
    hide SkippedIds, FileWrites, ChunkWrites, SymbolWrites, EdgeWrites, Withheld, FqnOf;
    WritesInFile(pl, path, content, Put(id, d));
    if Put(id, d) in FileWrites(pl, path, content) { KindsOfWrites(pl, path, content, id, d); }
  }

  /** The edge documents: one for each target found in a raw chunk not withheld, from its chunk to the target. */
  lemma EdgesWritten(pl: Pipeline, path: Path, content: string, id: DocId, d: Doc)
    requires KindOf(id) == Edges
    ensures Put(id, d) in FileWrites(pl, path, content)
       <==> exists raw, t ::
              && raw in pl.rawChunks(path, content) && t in raw.targets && d.EdgeDoc?
              && id == DocId(pl.scope, EdgeKey(path, d.sourceChunk, t.0, t.1))
              && d.path == path && d.target == t.1 && d.targetPath == None
              && IdOf(d.sourceChunk, pl, path, content, raw) && !Withheld(d.sourceChunk, pl, path, content)
  {
    var raws := pl.rawChunks(path, content);
    forall c { SkippedIsWithheld(pl, path, content, c); }
    WritesExact(pl, path, content, raws, SkippedIds(pl, path, content, raws));
    hide SkippedIds, FileWrites, ChunkWrites, SymbolWrites, EdgeWrites, Withheld;
    WritesInFile(pl, path, content, Put(id, d));
    if Put(id, d) in FileWrites(pl, path, content) { KindsOfWrites(pl, path, content, id, d); }
  }

  /** `d` lists the ids of the chunks and the FQNs of the symbols written after it, in the order of the writes. */
  ghost predicate ListsWhatFollows(d: Doc, writes: seq<Op>, scope: Scope) {
    && d.FileDoc? && 1 + |d.chunkIds| + |d.symbols| <= |writes|
    && (forall k :: 0 < k < |writes| ==> writes[k].Put?)
    && (forall k :: 0 < k < |writes| ==> (KindOf(writes[k].id) == Chunks <==> k <= |d.chunkIds|))
    && (forall k :: 0 < k < |writes| ==>
          (KindOf(writes[k].id) == Symbols <==> |d.chunkIds| < k <= |d.chunkIds| + |d.symbols|))
    && (forall k :: 0 <= k < |d.chunkIds| ==> writes[1 + k].id == d.chunkIds[k])
    && (forall k :: 0 <= k < |d.symbols| ==>
          writes[1 + |d.chunkIds| + k].id == DocId(scope, SymbolKey(d.symbols[k])))
  }

  /** The file document: the first write, and the only one of its kind; it lists the chunks and symbols that follow. */
  lemma FileDocWritten(pl: Pipeline, path: Path, content: string, id: DocId, d: Doc)
    requires KindOf(id) == Files
    ensures Put(id, d) in FileWrites(pl, path, content) <==> Put(id, d) == FileWrites(pl, path, content)[0]
    ensures Put(id, d) in FileWrites(pl, path, content) ==>
              && id == DocId(pl.scope, FileKey(path)) && d.FileDoc? && d.path == path && d.digest == Digest(content)
              && ListsWhatFollows(d, FileWrites(pl, path, content), pl.scope)
  {
    FileLayout(pl, path, content);
    if Put(id, d) in FileWrites(pl, path, content) { KindsOfWrites(pl, path, content, id, d); }
  }

  lemma ListsWhatFollowsIf(
    first: Op, chunks: seq<Op>, symbols: seq<Op>, edges: seq<Op>, scope: Scope)
    requires first.Put? && first.doc.FileDoc?
    requires |first.doc.chunkIds| == |chunks| && |first.doc.symbols| == |symbols|
    requires forall k :: 0 <= k < |chunks| ==>
               chunks[k].Put? && KindOf(chunks[k].id) == Chunks && first.doc.chunkIds[k] == chunks[k].id
    requires forall k :: 0 <= k < |symbols| ==>
               symbols[k].Put? && symbols[k].id == DocId(scope, SymbolKey(first.doc.symbols[k]))
    requires forall k :: 0 <= k < |edges| ==> edges[k].Put? && KindOf(edges[k].id) == Edges
    ensures ListsWhatFollows(first.doc, [first] + chunks + symbols + edges, scope)
  {
    var writes, c, s := [first] + chunks + symbols + edges, |chunks|, |symbols|;
    assert forall k :: 0 <= k < c ==> writes[1 + k] == chunks[k];
    assert forall k :: 0 <= k < s ==> writes[1 + c + k] == symbols[k];
    forall k | 0 < k < |writes|
      ensures writes[k] == if k <= c then chunks[k - 1] else if k <= c + s then symbols[k - 1 - c] else edges[k - 1 - c - s]
    {}
  }

  lemma FileLayout(pl: Pipeline, path: Path, content: string)
    ensures var first := FileWrites(pl, path, content)[0];
            && first.Put? && first.id == DocId(pl.scope, FileKey(path)) && first.doc.FileDoc?
            && first.doc.path == path && first.doc.digest == Digest(content)
            && ListsWhatFollows(first.doc, FileWrites(pl, path, content), pl.scope)
  {
    var raws := pl.rawChunks(path, content);
    var skipped := SkippedIds(pl, path, content, raws);
    var chunks, symbols := ChunkWrites(pl, path, content, raws, skipped), SymbolWrites(pl, path, content, raws, skipped);
    var edges := EdgeWrites(pl, path, content, raws, skipped);
    WritesExact(pl, path, content, raws, skipped);
    hide SkippedIds, ChunkWrites, SymbolWrites, EdgeWrites, FqnOf, ListsWhatFollows;
    forall k | 0 <= k < |chunks| ensures chunks[k].Put? && KindOf(chunks[k].id) == Chunks {
      assert chunks[k] in chunks;
    }
    forall k | 0 <= k < |symbols|
      ensures symbols[k].Put? && symbols[k].doc.SymbolDoc? && symbols[k].id == DocId(pl.scope, SymbolKey(symbols[k].doc.fqn))
    {
      assert symbols[k] in symbols;
    }
    forall k | 0 <= k < |edges| ensures edges[k].Put? && KindOf(edges[k].id) == Edges { assert edges[k] in edges; }
    ListsWhatFollowsIf(FileWrite(pl, path, content, chunks, symbols), chunks, symbols, edges, pl.scope);
  }
}
