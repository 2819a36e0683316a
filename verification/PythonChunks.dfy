/**
 * The Python chunker's visit, which keeps the names of the enclosing classes on a list that it
 * pushes and pops (apps/chunking/strategies/python_chunker.py).
 */
module PythonChunks {
  import opened Common

  datatype Ast =
    | ClassDef(name: string, first: nat, last: nat, body: seq<Ast>)
    | FunctionDef(name: string, isAsync: bool, first: nat, last: nat, body: seq<Ast>)
    | Other(body: seq<Ast>)

  datatype Kind = ClassDefinition | FunctionDefinition | MethodDefinition

  datatype Chunk = Chunk(
    kind: Kind, lineStart: nat, lineEnd: nat, symbolName: string, parentSymbol: Option<string>, signature: string)

  function Dotted(names: seq<string>): string {
    if |names| == 0 then ""
    else if |names| == 1 then names[0]
    else Dotted(names[..|names| - 1]) + "." + names[|names| - 1]
  }

  function ParentSymbol(parents: seq<string>): Option<string> {
    if Dotted(parents) == "" then None else Some(Dotted(parents))
  }

  /** The chunk of a definition with the given enclosing classes. */
  function ChunkOf(node: Ast, parents: seq<string>): Chunk
    requires !node.Other?
  {
    match node
    case ClassDef(name, first, last, _) =>
      Chunk(ClassDefinition, first, last, name, ParentSymbol(parents), "class " + name)
    case FunctionDef(name, isAsync, first, last, _) =>
      Chunk(if parents != [] then MethodDefinition else FunctionDefinition, first, last, name,
            ParentSymbol(parents), (if isAsync then "async def " else "def ") + name)
  }

  /** The chunks of a tree, with the enclosing classes passed down as a value. */
  function Chunks(node: Ast, parents: seq<string>): seq<Chunk>
    decreases node, 0
  {
    match node
    case ClassDef(name, _, _, body) => [ChunkOf(node, parents)] + ChunksOfAll(body, parents + [name])
    case FunctionDef(_, _, _, _, _) => [ChunkOf(node, parents)]
    case Other(body) => ChunksOfAll(body, parents)
  }

  function ChunksOfAll(nodes: seq<Ast>, parents: seq<string>): seq<Chunk>
    decreases nodes, |nodes|
  {
    if nodes == [] then []
    else ChunksOfAll(nodes[..|nodes| - 1], parents) + Chunks(nodes[|nodes| - 1], parents)
  }

  class Visitor {
    var chunks: seq<Chunk>
    var parents: seq<string>

    constructor ()
      ensures chunks == [] && parents == []
    {
      chunks, parents := [], [];
    }

    /** Adds the chunks of the recursion above, and leaves the list of parents as it was. */
    method Visit(node: Ast)
      modifies this
      ensures chunks == old(chunks) + Chunks(node, old(parents))
      ensures parents == old(parents)
      decreases node
    {
      match node {
        case ClassDef(name, _, _, body) =>
          chunks := chunks + [ChunkOf(node, parents)];
          parents := parents + [name];
          ghost var before := chunks;
          for i := 0 to |body|
            invariant parents == old(parents) + [name]
            invariant chunks == before + ChunksOfAll(body[..i], parents)
          {
            Visit(body[i]);
            OneMore(body, i, parents);
          }
          assert body[..|body|] == body;
          parents := parents[..|parents| - 1];
        case FunctionDef(_, _, _, _, _) =>
          chunks := chunks + [ChunkOf(node, parents)];
        case Other(body) =>
          for i := 0 to |body|
            invariant parents == old(parents)
            invariant chunks == old(chunks) + ChunksOfAll(body[..i], parents)
          {
            Visit(body[i]);
            OneMore(body, i, parents);
          }
          assert body[..|body|] == body;
      }
    }
  }

  lemma OneMore(nodes: seq<Ast>, i: nat, parents: seq<string>)
    requires i < |nodes|
    ensures ChunksOfAll(nodes[..i + 1], parents) == ChunksOfAll(nodes[..i], parents) + Chunks(nodes[i], parents)
  {
    assert nodes[..i + 1][..i] == nodes[..i];
  }

  // ---------------------------------------------------------------- which definitions, with which parents

  /** A path of child indices that leads to a node of the tree. */
  predicate IsPath(node: Ast, path: seq<nat>)
    decreases |path|
  {
    path != [] ==> path[0] < |node.body| && IsPath(node.body[path[0]], path[1..])
  }

  function At(node: Ast, path: seq<nat>): Ast
    requires IsPath(node, path)
    decreases |path|
  {
    if path == [] then node else At(node.body[path[0]], path[1..])
  }

  /** The names of the classes that properly enclose the node at the path, outermost first. */
  function Enclosing(node: Ast, path: seq<nat>): seq<string>
    requires IsPath(node, path)
    decreases |path|
  {
    if path == [] then []
    else (if node.ClassDef? then [node.name] else []) + Enclosing(node.body[path[0]], path[1..])
  }

  predicate InsideFunction(node: Ast, path: seq<nat>)
    requires IsPath(node, path)
    decreases |path|
  {
    path != [] && (node.FunctionDef? || InsideFunction(node.body[path[0]], path[1..]))
  }

  /** The chunk comes from a definition at the path that is in no function. */
  ghost predicate ComesFrom(node: Ast, parents: seq<string>, path: seq<nat>, c: Chunk) {
    && IsPath(node, path) && !InsideFunction(node, path) && !At(node, path).Other?
    && c == ChunkOf(At(node, path), parents + Enclosing(node, path))
  }

  /** The chunk `c` of a definition whose enclosing classes are `outer`, field by field. */
  ghost predicate Describes(c: Chunk, def: Ast, outer: seq<string>) {
    && !def.Other? && c.lineStart == def.first && c.lineEnd == def.last && c.symbolName == def.name
    && (def.ClassDef? ==> c.kind == ClassDefinition && c.signature == "class " + def.name)
    && (def.FunctionDef? && outer != [] ==> c.kind == MethodDefinition)
    && (def.FunctionDef? && outer == [] ==> c.kind == FunctionDefinition)
    && (def.FunctionDef? && def.isAsync ==> c.signature == "async def " + def.name)
    && (def.FunctionDef? && !def.isAsync ==> c.signature == "def " + def.name)
    && (Dotted(outer) == "" ==> c.parentSymbol == None)
    && (Dotted(outer) != "" ==> c.parentSymbol == Some(Dotted(outer)))
  }

  /** The names of the enclosing classes are joined with a dot between each and the next. */
  lemma {:induction false} DottedConcat(a: seq<string>, b: seq<string>)
    ensures Dotted([]) == "" && (|a| == 1 ==> Dotted(a) == a[0])
    ensures a != [] && b != [] ==> Dotted(a + b) == Dotted(a) + "." + Dotted(b)
  {
    if a != [] && b != [] {
      var init, last := b[..|b| - 1], b[|b| - 1];
      assert a + b == (a + init) + [last] && b == init + [last];
      DottedOneMore(a + init, last);
      DottedOneMore(init, last);
      hide Dotted;
      if init == [] {
        assert a + init == a;
      } else {
        DottedConcat(a, init);
        Regrouped(Dotted(a), Dotted(init), last);
      }
    }
  }

  lemma DottedOneMore(names: seq<string>, name: string)
    ensures Dotted(names + [name]) == if names == [] then name else Dotted(names) + "." + name
  {
    assert (names + [name])[..|names|] == names;
  }

  lemma Regrouped(a: string, b: string, c: string)
    ensures a + "." + b + "." + c == a + "." + (b + "." + c)
  {}

  function Inner(node: Ast, parents: seq<string>): seq<string> {
    if node.ClassDef? then parents + [node.name] else parents
  }

  /** A step down the tree: an origin below a child is one below the node, unless the node is a function. */
  lemma OnePathStep(node: Ast, parents: seq<string>, i: nat, rest: seq<nat>, c: Chunk)
    requires i < |node.body|
    ensures !node.FunctionDef? && ComesFrom(node.body[i], Inner(node, parents), rest, c)
       <==> ComesFrom(node, parents, [i] + rest, c)
  {
    var path := [i] + rest;
    assert path[1..] == rest;
    if IsPath(node, path) {
      var own := if node.ClassDef? then [node.name] else [];
      assert Inner(node, parents) == parents + own;
      assert (parents + own) + Enclosing(node.body[i], rest) == parents + Enclosing(node, path);
    }
  }

  // ---------------------------------------------------------------- once each, in source order

  function Prefixed(i: nat, paths: seq<seq<nat>>): seq<seq<nat>> {
    seq(|paths|, k requires 0 <= k < |paths| => [i] + paths[k])
  }

  /** The paths of the definitions that get a chunk, a node before what it contains. */
  function Paths(node: Ast): seq<seq<nat>>
    decreases node, 0
  {
    match node
    case ClassDef(_, _, _, body) => [[]] + PathsOfAll(body)
    case FunctionDef(_, _, _, _, _) => [[]]
    case Other(body) => PathsOfAll(body)
  }

  function PathsOfAll(nodes: seq<Ast>): seq<seq<nat>>
    decreases nodes, |nodes|
  {
    if nodes == [] then []
    else PathsOfAll(nodes[..|nodes| - 1]) + Prefixed(|nodes| - 1, Paths(nodes[|nodes| - 1]))
  }

  /** The chunk comes from the definition at the path, which starts with the index of one of the nodes. */
  ghost predicate ComesFromOne(nodes: seq<Ast>, parents: seq<string>, p: seq<nat>, c: Chunk) {
    p != [] && p[0] < |nodes| && ComesFrom(nodes[p[0]], parents, p[1..], c)
  }

  lemma FromChild(node: Ast, parents: seq<string>, p: seq<nat>, c: Chunk)
    requires !node.FunctionDef? && ComesFromOne(node.body, Inner(node, parents), p, c)
    ensures ComesFrom(node, parents, p, c)
  {
    hide ComesFrom;
    assert p == [p[0]] + p[1..];
    OnePathStep(node, parents, p[0], p[1..], c);
  }

  lemma FromSelf(node: Ast, parents: seq<string>)
    requires !node.Other?
    ensures ComesFrom(node, parents, [], ChunkOf(node, parents))
  {
    assert parents + [] == parents;
  }

  /** The chunk at each place comes from the definition at the path in that place. */
  lemma {:induction false} ChunksFollowPaths(node: Ast, parents: seq<string>)
    ensures |Paths(node)| == |Chunks(node, parents)|
    ensures forall k :: 0 <= k < |Paths(node)| ==> ComesFrom(node, parents, Paths(node)[k], Chunks(node, parents)[k])
    decreases node, 0
  {
    hide ComesFrom, ComesFromOne;
    var paths, chunks := PathsOfAll(node.body), ChunksOfAll(node.body, Inner(node, parents));
    if !node.Other? { FromSelf(node, parents); }
    if !node.FunctionDef? {
      ChunksFollowPathsOfAll(node.body, Inner(node, parents));
      forall k | 0 <= k < |paths| ensures ComesFrom(node, parents, paths[k], chunks[k]) {
        FromChild(node, parents, paths[k], chunks[k]);
      }
    }
  }

  lemma ShiftedPath(nodes: seq<Ast>, parents: seq<string>, p: seq<nat>, c: Chunk)
    requires nodes != [] && ComesFrom(nodes[|nodes| - 1], parents, p, c)
    ensures ComesFromOne(nodes, parents, [|nodes| - 1] + p, c)
  {
    hide ComesFrom;
    assert ([|nodes| - 1] + p)[1..] == p;
  }

  lemma {:induction false} ChunksFollowPathsOfAll(nodes: seq<Ast>, parents: seq<string>)
    ensures |PathsOfAll(nodes)| == |ChunksOfAll(nodes, parents)|
    ensures forall k :: 0 <= k < |PathsOfAll(nodes)| ==>
              ComesFromOne(nodes, parents, PathsOfAll(nodes)[k], ChunksOfAll(nodes, parents)[k])
    decreases nodes, |nodes|
  {
    if nodes != [] {
      var init, last := nodes[..|nodes| - 1], nodes[|nodes| - 1];
      ChunksFollowPathsOfAll(init, parents);
      ChunksFollowPaths(last, parents);
      var paths, chunks := PathsOfAll(init), ChunksOfAll(init, parents);
      forall k | 0 <= k < |paths| ensures ComesFromOne(nodes, parents, paths[k], chunks[k]) {
        assert ComesFromOne(init, parents, paths[k], chunks[k]);
      }
      hide ComesFrom, ComesFromOne;
      var more := Prefixed(|init|, Paths(last));
      forall k | 0 <= k < |more| ensures ComesFromOne(nodes, parents, more[k], Chunks(last, parents)[k]) {
        ShiftedPath(nodes, parents, Paths(last)[k], Chunks(last, parents)[k]);
      }
    }
  }

  /** Preorder on paths: a node comes before what it contains, and that before its later siblings. */
  predicate PathBefore(p: seq<nat>, q: seq<nat>) {
    q != [] && (p == [] || p[0] < q[0] || (p[0] == q[0] && PathBefore(p[1..], q[1..])))
  }

  ghost predicate Ascending(paths: seq<seq<nat>>) {
    forall i, j :: 0 <= i < j < |paths| ==> PathBefore(paths[i], paths[j])
  }

  lemma {:induction false} PathsAscend(node: Ast)
    ensures Ascending(Paths(node))
    decreases node, 0
  {
    if !node.FunctionDef? { PathsOfAllAscend(node.body); }
  }

  lemma {:induction false} PathsOfAllAscend(nodes: seq<Ast>)
    ensures Ascending(PathsOfAll(nodes))
    ensures forall k :: 0 <= k < |PathsOfAll(nodes)| ==> PathsOfAll(nodes)[k] != [] && PathsOfAll(nodes)[k][0] < |nodes|
    decreases nodes, |nodes|
  {
    if nodes != [] {
      var init, last := nodes[..|nodes| - 1], nodes[|nodes| - 1];
      PathsOfAllAscend(init);
      PathsAscend(last);
      var front, back := PathsOfAll(init), Prefixed(|init|, Paths(last));
      forall i, j | 0 <= i < j < |back| ensures PathBefore(back[i], back[j]) {
        assert back[i][1..] == Paths(last)[i] && back[j][1..] == Paths(last)[j];
      }
    }
  }

  /** A definition that is in no function. */
  ghost predicate IsChunked(node: Ast, path: seq<nat>) {
    IsPath(node, path) && !InsideFunction(node, path) && !At(node, path).Other?
  }

  lemma {:induction false} EveryDefinitionHasPath(node: Ast, path: seq<nat>)
    requires IsChunked(node, path)
    ensures path in Paths(node)
    decreases |path|
  {
    if path == [] {
      assert Paths(node)[0] == [];
    } else {
      EveryDefinitionHasPath(node.body[path[0]], path[1..]);
      PathInAll(node.body, path[0], path[1..]);
      assert path == [path[0]] + path[1..];
    }
  }

  lemma {:induction false} PathInAll(nodes: seq<Ast>, i: nat, rest: seq<nat>)
    requires i < |nodes| && rest in Paths(nodes[i])
    ensures [i] + rest in PathsOfAll(nodes)
  {
    var n := |nodes| - 1;
    if i < n {
      PathInAll(nodes[..n], i, rest);
    } else {
      var k :| 0 <= k < |Paths(nodes[n])| && Paths(nodes[n])[k] == rest;
      assert Prefixed(n, Paths(nodes[n]))[k] == [i] + rest;
    }
  }

  /**
   * The chunker emits one chunk for each class, function or method that is not inside a function,
   * once and in source order, with the classes that enclose it, outermost first, as its parent.
   */
  lemma ChunksAreTheDefinitions(root: Ast) returns (paths: seq<seq<nat>>)
    ensures Ascending(paths) && forall p :: p in paths <==> IsChunked(root, p)
    ensures |Chunks(root, [])| == |paths|
    ensures forall k :: 0 <= k < |paths| ==>
              IsPath(root, paths[k]) && Describes(Chunks(root, [])[k], At(root, paths[k]), Enclosing(root, paths[k]))
  {
    paths := Paths(root);
    PathsAscend(root);
    ChunksFollowPaths(root, []);
    forall k | 0 <= k < |paths|
      ensures IsPath(root, paths[k]) && Describes(Chunks(root, [])[k], At(root, paths[k]), Enclosing(root, paths[k]))
    {
      assert ComesFrom(root, [], paths[k], Chunks(root, [])[k]);
      assert [] + Enclosing(root, paths[k]) == Enclosing(root, paths[k]);
    }
    forall p ensures p in paths <==> IsChunked(root, p) {
      if IsChunked(root, p) { EveryDefinitionHasPath(root, p); }
      if p in paths { var k :| 0 <= k < |paths| && paths[k] == p; }
    }
  }

  lemma {:induction false} BeforeIsStrict(p: seq<nat>, q: seq<nat>)
    ensures !(PathBefore(p, q) && PathBefore(q, p)) && !PathBefore(p, p)
  {
    if p != [] && q != [] { BeforeIsStrict(p[1..], q[1..]); }
    if p != [] { BeforeIsStrict(p[1..], p[1..]); }
  }

  /** So no definition gets two chunks. */
  lemma NoDefinitionTwice(paths: seq<seq<nat>>, i: nat, j: nat)
    requires Ascending(paths) && i < j < |paths|
    ensures paths[i] != paths[j]
  {
    BeforeIsStrict(paths[i], paths[j]);
  }
}
