/**
 * The search index as one map from document ids to documents, and the primitive writes the
 * adapter issues (adapters/elasticsearch/_indexing.py): delete-by-query on one kind of document,
 * and indexing one document.  Ids are the parts that the source hashes, taken as injective.
 */
module SearchIndex {
  import opened Common

  type Path = string

  /** SHA-256 taken as injective: a digest is the text it was computed from. */
  datatype Digest = Digest(of: string)

  datatype Scope = Scope(tenant: string, project: string, branch: string)

  /** A fully qualified name is one dotted string: where one part ends and the next begins is not kept. */
  datatype Fqn = Fqn(text: string)

  datatype EdgeType = Imports | Calls | References | Tests | Configures | ExposesEndpoint

  datatype Key =
    | FileKey(path: Path)
    | ChunkKey(path: Path, digest: Digest, lineStart: nat, lineEnd: nat, name: Option<string>)
    | SymbolKey(fqn: Fqn)
    | EdgeKey(path: Path, chunk: DocId, edgeType: EdgeType, target: string)

  datatype DocId = DocId(scope: Scope, key: Key)

  datatype Embedding = Embedding(dense: seq<real>, late: seq<seq<real>>)

  /** The stored fields that identify, own or link a document; commit, timestamps and URLs are not modelled. */
  datatype Doc =
    | FileDoc(path: Path, digest: Digest, chunkIds: seq<DocId>, symbols: seq<Fqn>)
    | ChunkDoc(path: Path, text: string, inputHash: Digest, embedding: Embedding)
    | SymbolDoc(path: Path, fqn: Fqn, definitionChunk: DocId)
    | EdgeDoc(path: Path, sourceChunk: DocId, target: string, targetPath: Option<Path>)

  datatype Kind = Files | Chunks | Symbols | Edges

  function KindOf(id: DocId): Kind {
    match id.key
    case FileKey(_) => Files
    case ChunkKey(_, _, _, _, _) => Chunks
    case SymbolKey(_) => Symbols
    case EdgeKey(_, _, _, _) => Edges
  }

  type Index = map<DocId, Doc>

  /** The file condition of a delete query; an edge also matches through its target file. */
  predicate Matches(d: Doc, path: Path) {
    d.path == path || (d.EdgeDoc? && d.targetPath == Some(path))
  }

  datatype Op =
    | Delete(kind: Kind, scope: Scope, path: Path)
    | Put(id: DocId, doc: Doc)

  predicate Removes(op: Op, id: DocId, d: Doc) {
    op.Delete? && id.scope == op.scope && KindOf(id) == op.kind && Matches(d, op.path)
  }

  function Apply(ix: Index, op: Op): Index {
    match op
    case Delete(_, _, _) => map id | id in ix && !Removes(op, id, ix[id]) :: ix[id]
    case Put(id, d) => ix[id := d]
  }

  function ApplyAll(ix: Index, ops: seq<Op>): Index {
    if ops == [] then ix else Apply(ApplyAll(ix, ops[..|ops| - 1]), ops[|ops| - 1])
  }

  function Lookup(ix: Index, id: DocId): Option<Doc> {
    if id in ix then Some(ix[id]) else None
  }

  lemma {:induction false} ApplyAllConcat(ix: Index, a: seq<Op>, b: seq<Op>)
    ensures ApplyAll(ix, a + b) == ApplyAll(ApplyAll(ix, a), b)
  {
    if b == [] {
      assert a + b == a;
    } else {
      ApplyAllConcat(ix, a, b[..|b| - 1]);
      assert (a + b)[..|a + b| - 1] == a + b[..|b| - 1];
    }
  }

  // ---------------------------------------------------------------- one document at a time

  /** What one write does to the document at `id`. */
  function Effect(op: Op, id: DocId, before: Option<Doc>): Option<Doc> {
    match op
    case Put(x, d) => if x == id then Some(d) else before
    case Delete(_, _, _) => if before.Some? && Removes(op, id, before.value) then None else before
  }

  lemma LookupApply(ix: Index, op: Op, id: DocId)
    ensures Lookup(Apply(ix, op), id) == Effect(op, id, Lookup(ix, id))
  {}

  /** The writes that decide the document at `id` when every document put there belongs to the file `owner`. */
  predicate Relevant(op: Op, id: DocId, owner: Path) {
    (op.Put? && op.id == id) || (op.Delete? && op.scope == id.scope && op.kind == KindOf(id) && op.path == owner)
  }

  function LastRelevant(ops: seq<Op>, id: DocId, owner: Path): Option<Op> {
    if ops == [] then None
    else if Relevant(ops[|ops| - 1], id, owner) then Some(ops[|ops| - 1])
    else LastRelevant(ops[..|ops| - 1], id, owner)
  }

  lemma {:induction false} LastRelevantConcat(a: seq<Op>, b: seq<Op>, id: DocId, owner: Path)
    ensures LastRelevant(a + b, id, owner)
         == if LastRelevant(b, id, owner).Some? then LastRelevant(b, id, owner) else LastRelevant(a, id, owner)
  {
    if b == [] {
      assert a + b == a;
    } else {
      LastRelevantConcat(a, b[..|b| - 1], id, owner);
      assert (a + b)[..|a + b| - 1] == a + b[..|b| - 1];
    }
  }

  lemma {:induction false} NoneRelevant(ops: seq<Op>, id: DocId, owner: Path)
    ensures LastRelevant(ops, id, owner).None? <==> forall o :: o in ops ==> !Relevant(o, id, owner)
  {
    if ops != [] {
      NoneRelevant(ops[..|ops| - 1], id, owner);
      assert ops == ops[..|ops| - 1] + [ops[|ops| - 1]];
    }
  }

  /** Every document put at `id` belongs to the file `owner` alone. */
  ghost predicate PutsBelongTo(ops: seq<Op>, id: DocId, owner: Path) {
    forall o :: o in ops && o.Put? && o.id == id ==> forall p :: Matches(o.doc, p) <==> p == owner
  }

  /** Deleting other files cannot touch an owned document, so its last relevant write decides it. */
  lemma {:induction false} LastWriteDecides(ix: Index, ops: seq<Op>, id: DocId, owner: Path)
    requires PutsBelongTo(ops, id, owner)
    requires LastRelevant(ops, id, owner).Some? && LastRelevant(ops, id, owner).value.Put?
    ensures Lookup(ApplyAll(ix, ops), id) == Some(LastRelevant(ops, id, owner).value.doc)
  {
    var init, o := ops[..|ops| - 1], ops[|ops| - 1];
    LookupApply(ApplyAll(ix, init), o, id);
    if !Relevant(o, id, owner) {
      assert forall x :: x in init ==> x in ops;
      LastWriteDecides(ix, init, id, owner);
      LastRelevantIn(init, id, owner);
    }
  }

  lemma {:induction false} LastRelevantIn(ops: seq<Op>, id: DocId, owner: Path)
    requires LastRelevant(ops, id, owner).Some?
    ensures LastRelevant(ops, id, owner).value in ops && Relevant(LastRelevant(ops, id, owner).value, id, owner)
  {
    if !Relevant(ops[|ops| - 1], id, owner) { LastRelevantIn(ops[..|ops| - 1], id, owner); }
  }

  /** With nothing put at `id`, its document survives exactly if no delete in the sequence removes it. */
  lemma {:induction false} WithoutPuts(ix: Index, ops: seq<Op>, id: DocId)
    requires forall o :: o in ops && o.Put? ==> o.id != id
    ensures Lookup(ApplyAll(ix, ops), id)
         == if id in ix && (exists o :: o in ops && Removes(o, id, ix[id])) then None else Lookup(ix, id)
  {
    if ops != [] {
      var init, o := ops[..|ops| - 1], ops[|ops| - 1];
      assert ops == init + [o];
      WithoutPuts(ix, init, id);
      LookupApply(ApplyAll(ix, init), o, id);
    }
  }

  // ---------------------------------------------------------------- interleavings

  /** A write tagged with the activity that issued it. */
  datatype Tagged = Tagged(agent: nat, op: Op)

  function Untag(trace: seq<Tagged>): seq<Op> {
    seq(|trace|, i requires 0 <= i < |trace| => trace[i].op)
  }

  function By(trace: seq<Tagged>, k: nat): seq<Op> {
    if trace == [] then []
    else
      var init := By(trace[..|trace| - 1], k);
      if trace[|trace| - 1].agent == k then init + [trace[|trace| - 1].op] else init
  }

  /** The trace interleaves the parts: it keeps the order within each and adds nothing. */
  ghost predicate Interleaves(trace: seq<Tagged>, parts: seq<seq<Op>>) {
    && (forall i :: 0 <= i < |trace| ==> trace[i].agent < |parts|)
    && forall k :: 0 <= k < |parts| ==> By(trace, k) == parts[k]
  }

  lemma {:induction false} InterleavedOps(trace: seq<Tagged>, parts: seq<seq<Op>>, o: Op)
    requires Interleaves(trace, parts)
    ensures o in Untag(trace) <==> exists k :: 0 <= k < |parts| && o in parts[k]
  {
    forall k | 0 <= k < |parts| ensures o in parts[k] <==> exists i :: 0 <= i < |trace| && trace[i] == Tagged(k, o) {
      ByMembers(trace, k, o);
    }
    if o in Untag(trace) {
      var i :| 0 <= i < |trace| && trace[i].op == o;
      assert trace[i] == Tagged(trace[i].agent, o);
    }
    if k :| 0 <= k < |parts| && o in parts[k] {
      var i :| 0 <= i < |trace| && trace[i] == Tagged(k, o);
      assert Untag(trace)[i] == o;
    }
  }

  lemma {:induction false} ByMembers(trace: seq<Tagged>, k: nat, o: Op)
    ensures o in By(trace, k) <==> exists i :: 0 <= i < |trace| && trace[i] == Tagged(k, o)
  {
    if trace != [] {
      var init, last := trace[..|trace| - 1], trace[|trace| - 1];
      ByMembers(init, k, o);
      assert forall i :: 0 <= i < |init| ==> init[i] == trace[i];
      assert trace[|trace| - 1] == Tagged(last.agent, last.op);
    }
  }

  /**
   * The last relevant write of an interleaving is the last relevant write of one of its parts;
   * there is none only if no part has one.
   */
  lemma {:induction false} LastRelevantOfInterleaving(trace: seq<Tagged>, n: nat, id: DocId, owner: Path)
    requires forall i :: 0 <= i < |trace| ==> trace[i].agent < n
    ensures var last := LastRelevant(Untag(trace), id, owner);
            if last.Some? then exists k :: 0 <= k < n && LastRelevant(By(trace, k), id, owner) == last
            else forall k :: 0 <= k < n ==> LastRelevant(By(trace, k), id, owner).None?
  {
    if trace != [] {
      var init, last := trace[..|trace| - 1], trace[|trace| - 1];
      assert Untag(trace)[..|trace| - 1] == Untag(init);
      LastRelevantOfInterleaving(init, n, id, owner);
      forall k | 0 <= k < n
        ensures LastRelevant(By(trace, k), id, owner)
             == if k == last.agent && Relevant(last.op, id, owner) then Some(last.op)
                else LastRelevant(By(init, k), id, owner)
      {
        if k == last.agent { assert By(trace, k)[..|By(trace, k)| - 1] == By(init, k); }
      }
      assert Untag(trace)[|trace| - 1] == last.op;
      if Relevant(last.op, id, owner) {
        assert LastRelevant(By(trace, last.agent), id, owner) == LastRelevant(Untag(trace), id, owner);
      } else if LastRelevant(Untag(init), id, owner).Some? {
        var k :| 0 <= k < n && LastRelevant(By(init, k), id, owner) == LastRelevant(Untag(init), id, owner);
        assert LastRelevant(By(trace, k), id, owner) == LastRelevant(Untag(trace), id, owner);
      }
    }
  }

  /** If every part that has a last relevant write has an allowed one, so has any interleaving of them. */
  lemma AgreedLastRelevant(trace: seq<Tagged>, parts: seq<seq<Op>>, id: DocId, owner: Path, allowed: iset<Op>, some: nat)
    requires Interleaves(trace, parts) && some < |parts| && LastRelevant(parts[some], id, owner).Some?
    requires forall k :: 0 <= k < |parts| && LastRelevant(parts[k], id, owner).Some? ==>
               LastRelevant(parts[k], id, owner).value in allowed
    ensures var last := LastRelevant(Untag(trace), id, owner); last.Some? && last.value in allowed
  {
    hide LastRelevant, By, Untag;
    LastRelevantOfInterleaving(trace, |parts|, id, owner);
    assert By(trace, some) == parts[some];
    var last := LastRelevant(Untag(trace), id, owner);
    if last.Some? {
      var k :| 0 <= k < |parts| && LastRelevant(By(trace, k), id, owner) == last;
      assert By(trace, k) == parts[k];
    }
  }
}
