/**
 * Walks over a tree-sitter syntax tree with an explicit stack, and the recursive collection of
 * calls (apps/chunking/tree_sitter_chunker.py).
 */
module TreeWalks {
  import opened Common

  /**
   * A syntax node with what the walks read off it: the first line if it is an import, its text if it
   * is a named identifier, the called name if it is a call; each is empty where it does not apply.
   */
  datatype Node = Node(
    importLine: Name, identifier: Name, callee: Name, isFunction: bool, children: seq<Node>)

  datatype Name = Name(text: string)

  const EMPTY := Name("")

  // ---------------------------------------------------------------- distinct values

  /** The non-empty values in the order of their first appearance. */
  function FirstDistinct(values: seq<Name>): seq<Name> {
    if values == [] then []
    else Noted(FirstDistinct(values[..|values| - 1]), values[|values| - 1])
  }

  /** Add a value unless it is empty or already there. */
  function Noted(found: seq<Name>, value: Name): seq<Name> {
    if value == EMPTY || value in found then found else found + [value]
  }

  function Take(s: seq<Name>, n: nat): seq<Name> {
    if |s| <= n then s else s[..n]
  }

  lemma {:induction false} FirstDistinctShape(values: seq<Name>)
    ensures Distinct(FirstDistinct(values))
    ensures forall v :: v in FirstDistinct(values) <==> v in values && v != EMPTY
  {
    if values != [] {
      FirstDistinctShape(values[..|values| - 1]);
      assert values == values[..|values| - 1] + [values[|values| - 1]];
    }
  }

  lemma FirstDistinctOneMore(values: seq<Name>, v: Name)
    ensures FirstDistinct(values + [v]) == Noted(FirstDistinct(values), v)
  {
    assert (values + [v])[..|values|] == values;
  }

  /** More values only ever add to the end. */
  lemma {:induction false} FirstDistinctIsPrefix(a: seq<Name>, b: seq<Name>)
    ensures FirstDistinct(a) <= FirstDistinct(a + b)
  {
    if b == [] {
      assert a + b == a;
    } else {
      var init := b[..|b| - 1];
      assert a + b == (a + init) + [b[|b| - 1]];
      FirstDistinctIsPrefix(a, init);
      FirstDistinctOneMore(a + init, b[|b| - 1]);
    }
  }

  // ---------------------------------------------------------------- right-to-left preorder

  /** What a walk reads off a node. */
  datatype Reading = Imports | Identifiers

  function Value(n: Node, what: Reading): Name {
    match what
    case Imports => n.importLine
    case Identifiers => n.identifier
  }

  /** A node before its children, and of those the last first. */
  function Preorder(n: Node, what: Reading): seq<Name>
    decreases n, 0
  {
    [Value(n, what)] + Forest(n.children, what)
  }

  function Forest(ns: seq<Node>, what: Reading): seq<Name>
    decreases ns, |ns|
  {
    if ns == [] then [] else Preorder(ns[|ns| - 1], what) + Forest(ns[..|ns| - 1], what)
  }

  lemma {:induction false} ForestConcat(a: seq<Node>, b: seq<Node>, what: Reading)
    ensures Forest(a + b, what) == Forest(b, what) + Forest(a, what)
    decreases |b|
  {
    if b == [] {
      assert a + b == a;
    } else {
      assert (a + b)[..|a + b| - 1] == a + b[..|b| - 1];
      ForestConcat(a, b[..|b| - 1], what);
    }
  }

  /** Popping a node and pushing its children leaves exactly what comes after the node. */
  lemma PopAndPush(stack: seq<Node>, what: Reading)
    requires stack != []
    ensures var top := stack[|stack| - 1];
            Forest(stack, what) == [Value(top, what)] + Forest(stack[..|stack| - 1] + top.children, what)
  {
    ForestConcat(stack[..|stack| - 1], stack[|stack| - 1].children, what);
  }

  /** Counts nodes, so that a walk ends: each pop takes one away. */
  function Size(n: Node): nat
    decreases n, 0
  {
    1 + Sizes(n.children)
  }

  function Sizes(ns: seq<Node>): nat
    decreases ns, |ns|
  {
    if ns == [] then 0 else Size(ns[|ns| - 1]) + Sizes(ns[..|ns| - 1])
  }

  lemma {:induction false} SizesConcat(a: seq<Node>, b: seq<Node>)
    ensures Sizes(a + b) == Sizes(a) + Sizes(b)
    decreases |b|
  {
    if b == [] {
      assert a + b == a;
    } else {
      assert (a + b)[..|a + b| - 1] == a + b[..|b| - 1];
      SizesConcat(a, b[..|b| - 1]);
    }
  }

  /** What has been read, and what the stack will still yield, together make the whole preorder. */
  ghost predicate Visited(root: Node, what: Reading, read: seq<Name>, stack: seq<Node>, found: seq<Name>) {
    && read + Forest(stack, what) == Preorder(root, what)
    && found == FirstDistinct(read)
  }

  lemma StartWalk(root: Node, what: Reading)
    ensures Visited(root, what, [], [root], [])
  {
    assert [root][..0] == [];
    assert Preorder(root, what) + [] == Preorder(root, what) && [] + Preorder(root, what) == Preorder(root, what);
  }

  lemma Regroup(a: seq<Name>, b: seq<Name>, c: seq<Name>)
    ensures (a + b) + c == a + (b + c)
  {}

  lemma PopAndPushShrinks(stack: seq<Node>)
    requires stack != []
    ensures Sizes(stack[..|stack| - 1] + stack[|stack| - 1].children) < Sizes(stack)
  {
    SizesConcat(stack[..|stack| - 1], stack[|stack| - 1].children);
  }

  lemma VisitOne(root: Node, what: Reading, read: seq<Name>, stack: seq<Node>, found: seq<Name>)
    requires Visited(root, what, read, stack, found) && stack != []
    ensures var top := stack[|stack| - 1];
            && Visited(root, what, read + [Value(top, what)], stack[..|stack| - 1] + top.children,
                       Noted(found, Value(top, what)))
            && Sizes(stack[..|stack| - 1] + top.children) < Sizes(stack)
  {
    hide Forest, Sizes, Preorder, FirstDistinct, Noted, Value;
    var top, rest := stack[|stack| - 1], stack[..|stack| - 1];
    PopAndPush(stack, what);
    PopAndPushShrinks(stack);
    FirstDistinctOneMore(read, Value(top, what));
    Regroup(read, [Value(top, what)], Forest(rest + top.children, what));
  }

  /** Imports: walk the whole tree, and cut the list off at the end. */
  method CollectImports(root: Node, max: nat) returns (imports: seq<Name>)
    ensures imports == Take(FirstDistinct(Preorder(root, Imports)), max)
  {
    imports := [];
    var stack := [root];
    ghost var read: seq<Name> := [];
    StartWalk(root, Imports);
    hide Visited, Sizes, Preorder, FirstDistinct;
    while stack != []
      invariant Visited(root, Imports, read, stack, imports)
      decreases Sizes(stack)
    {
      VisitOne(root, Imports, read, stack, imports);
      var node := stack[|stack| - 1];
      stack := stack[..|stack| - 1];
      if node.importLine != EMPTY && node.importLine !in imports {
        imports := imports + [node.importLine];
      }
      stack := stack + node.children;
      read := read + [node.importLine];
    }
    WalkDone(root, Imports, read, imports);
    imports := if |imports| <= max then imports else imports[..max];
  }

  lemma WalkDone(root: Node, what: Reading, read: seq<Name>, found: seq<Name>)
    requires Visited(root, what, read, [], found)
    ensures found == FirstDistinct(Preorder(root, what))
  {
    assert read + [] == read;
  }

  /** References: stop as soon as there are enough. */
  method CollectReferences(root: Node, max: nat) returns (references: seq<Name>)
    ensures references == Take(FirstDistinct(Preorder(root, Identifiers)), max)
  {
    references := [];
    var stack := [root];
    ghost var read: seq<Name> := [];
    StartWalk(root, Identifiers);
    hide Visited, Sizes, Preorder, FirstDistinct;
    while stack != [] && |references| < max
      invariant Visited(root, Identifiers, read, stack, references)
      invariant |references| <= max
      decreases Sizes(stack)
    {
      VisitOne(root, Identifiers, read, stack, references);
      var current := stack[|stack| - 1];
      stack := stack[..|stack| - 1];
      if current.identifier != EMPTY && current.identifier !in references {
        references := references + [current.identifier];
      }
      stack := stack + current.children;
      read := read + [current.identifier];
    }
    StoppedEarly(root, Identifiers, read, stack, references, max);
  }

  /** Stopping with enough values gives what cutting off the full list would give. */
  lemma StoppedEarly(root: Node, what: Reading, read: seq<Name>, stack: seq<Node>, found: seq<Name>, max: nat)
    requires Visited(root, what, read, stack, found) && |found| <= max && (stack != [] ==> |found| == max)
    ensures found == Take(FirstDistinct(Preorder(root, what)), max)
  {
    FirstDistinctIsPrefix(read, Forest(stack, what));
    if stack == [] { WalkDone(root, what, read, found); }
  }

  // ---------------------------------------------------------------- calls

  /** The names called in a definition, left to right, but not those called in definitions nested in it. */
  function Calls(n: Node, top: bool): seq<Name>
    decreases n, 0
  {
    if !top && n.isFunction then [] else [n.callee] + CallsOfAll(n.children)
  }

  function CallsOfAll(ns: seq<Node>): seq<Name>
    decreases ns, |ns|
  {
    if ns == [] then [] else CallsOfAll(ns[..|ns| - 1]) + Calls(ns[|ns| - 1], false)
  }

  /** The recursion shares one list and one set; `before` stands for everything called so far. */
  method CollectCallsInto(node: Node, calls: seq<Name>, seen: set<Name>, top: bool, ghost before: seq<Name>)
    returns (calls': seq<Name>, seen': set<Name>)
    requires calls == FirstDistinct(before) && seen == set c | c in calls
    ensures calls' == FirstDistinct(before + Calls(node, top)) && seen' == set c | c in calls'
    decreases node
  {
    calls', seen' := calls, seen;
    if !top && node.isFunction {
      assert before + [] == before;
      return;
    }
    FirstDistinctOneMore(before, node.callee);
    ghost var sofar := before + [node.callee];
    CallsStart(node, sofar);
    hide FirstDistinct, Calls, CallsOfAll;
    if node.callee != EMPTY && node.callee !in seen' {
      seen' := seen' + {node.callee};
      calls' := calls' + [node.callee];
    }
    for i := 0 to |node.children|
      invariant calls' == FirstDistinct(sofar + CallsOfAll(node.children[..i]))
      invariant seen' == set c | c in calls'
    {
      CallsOneMore(node.children, i, sofar);
      calls', seen' := CollectCallsInto(node.children[i], calls', seen', false, sofar + CallsOfAll(node.children[..i]));
    }
    CallsEnd(node, top, before);
  }

  lemma CallsStart(node: Node, sofar: seq<Name>)
    ensures sofar + CallsOfAll(node.children[..0]) == sofar
  {}

  lemma CallsOneMore(ns: seq<Node>, i: nat, sofar: seq<Name>)
    requires i < |ns|
    ensures sofar + CallsOfAll(ns[..i + 1]) == (sofar + CallsOfAll(ns[..i])) + Calls(ns[i], false)
  {
    assert ns[..i + 1][..i] == ns[..i];
    Regroup(sofar, CallsOfAll(ns[..i]), Calls(ns[i], false));
  }

  lemma CallsEnd(node: Node, top: bool, before: seq<Name>)
    requires top || !node.isFunction
    ensures (before + [node.callee]) + CallsOfAll(node.children[..|node.children|]) == before + Calls(node, top)
  {
    assert node.children[..|node.children|] == node.children;
    Regroup(before, [node.callee], CallsOfAll(node.children));
  }

  // ---------------------------------------------------------------- which calls

  /** A path of child indices to the node `at`, with no function on it below the root, `at` included. */
  predicate Reaches(root: Node, path: seq<nat>, at: Node)
    decreases |path|
  {
    if path == [] then at == root
    else path[0] < |root.children| && !root.children[path[0]].isFunction && Reaches(root.children[path[0]], path[1..], at)
  }

  lemma {:induction false} CallsReach(n: Node, name: Name) returns (path: seq<nat>, at: Node)
    requires name in Calls(n, true)
    ensures Reaches(n, path, at) && at.callee == name
    decreases n, 0
  {
    if name == n.callee {
      path, at := [], n;
    } else {
      var i;
      i, path, at := CallsOfAllReach(n.children, name);
      path := [i] + path;
      assert path[0] == i && Reaches(n.children[i], path[1..], at);
    }
  }

  lemma {:induction false} CallsOfAllReach(ns: seq<Node>, name: Name) returns (i: nat, path: seq<nat>, at: Node)
    requires name in CallsOfAll(ns)
    ensures i < |ns| && !ns[i].isFunction && Reaches(ns[i], path, at) && at.callee == name
    decreases ns, |ns|
  {
    var n := |ns| - 1;
    if name in CallsOfAll(ns[..n]) {
      i, path, at := CallsOfAllReach(ns[..n], name);
    } else {
      i := n;
      path, at := CallsReach(ns[n], name);
    }
  }

  lemma {:induction false} CallsOfAllConcat(a: seq<Node>, b: seq<Node>)
    ensures CallsOfAll(a + b) == CallsOfAll(a) + CallsOfAll(b)
    decreases |b|
  {
    if b == [] {
      assert a + b == a;
    } else {
      assert (a + b)[..|a + b| - 1] == a + b[..|b| - 1];
      CallsOfAllConcat(a, b[..|b| - 1]);
    }
  }

  lemma ChildCalls(ns: seq<Node>, i: nat)
    requires i < |ns| && !ns[i].isFunction
    ensures forall name :: name in Calls(ns[i], true) ==> name in CallsOfAll(ns)
  {
    assert ns == ns[..i] + ([ns[i]] + ns[i + 1..]);
    CallsOfAllConcat(ns[..i], [ns[i]] + ns[i + 1..]);
    CallsOfAllConcat([ns[i]], ns[i + 1..]);
    assert [ns[i]][..0] == [];
    assert CallsOfAll([ns[i]]) == CallsOfAll([]) + Calls(ns[i], false);
  }

  lemma {:induction false} ReachedIsCalled(n: Node, path: seq<nat>, at: Node)
    requires Reaches(n, path, at)
    ensures at.callee in Calls(n, true)
    decreases |path|
  {
    if path != [] {
      ReachedIsCalled(n.children[path[0]], path[1..], at);
      ChildCalls(n.children, path[0]);
    }
  }

  /** The name is called at a node that the path reaches. */
  ghost predicate CalledAt(root: Node, path: seq<nat>, name: Name) {
    exists at :: Reaches(root, path, at) && at.callee == name
  }

  /** What a definition calls is what is called at the nodes that can be reached without entering another definition. */
  lemma CalledIff(n: Node, name: Name)
    ensures name in Calls(n, true) <==> exists path :: CalledAt(n, path, name)
  {
    if name in Calls(n, true) {
      var path, at := CallsReach(n, name);
      assert CalledAt(n, path, name);
    }
    if path :| CalledAt(n, path, name) {
      var at :| Reaches(n, path, at) && at.callee == name;
      ReachedIsCalled(n, path, at);
    }
  }

  /** The calls come in the order of the source: the node's own, then those of earlier children before later ones. */
  lemma CallsInOrder(n: Node, a: seq<Node>, b: seq<Node>)
    requires n.children == a + b
    ensures Calls(n, true) == [n.callee] + CallsOfAll(a) + CallsOfAll(b)
  {
    CallsOfAllConcat(a, b);
  }

  method CollectCalls(node: Node, max: nat) returns (calls: seq<Name>)
    ensures calls == Take(FirstDistinct(Calls(node, true)), max)
  {
    var all, _ := CollectCallsInto(node, [], {}, true, []);
    assert [] + Calls(node, true) == Calls(node, true);
    calls := if |all| <= max then all else all[..max];
  }
}
