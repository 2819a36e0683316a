/**
 * From code edges to communities (apps/communities/community_detector.py): the adjacency
 * relation, the grouping of symbols by label, and the edge count of a community.
 */
module Communities {
  import opened Common
  import opened LabelPropagation

  /** A code edge: the FQN it starts from and the raw name it points at, either of which may be missing. */
  datatype Edge = Edge(source: Option<Name>, target: Option<Name>)

  /** The settings of the detector. */
  datatype Limits = Limits(minSize: nat, maxMembers: nat)

  datatype Community = Community(members: seq<Name>, representative: Name, size: nat, edgeCount: nat)

  // ---------------------------------------------------------------- connectivity

  ghost predicate Walk(g: Graph, p: seq<Name>) {
    p != [] && p[0] in g && forall i :: 0 < i < |p| ==> p[i] in g && Adjacent(g, p[i - 1], p[i])
  }

  ghost predicate Connected(g: Graph, u: Name, v: Name) {
    exists p :: WalkBetween(g, p, u, v)
  }

  ghost predicate WalkBetween(g: Graph, p: seq<Name>, u: Name, v: Name) {
    Walk(g, p) && p[0] == u && p[|p| - 1] == v
  }

  lemma ConnectedToSelf(g: Graph, u: Name)
    requires u in g
    ensures Connected(g, u, u)
  {
    assert WalkBetween(g, [u], u, u);
  }

  lemma NeighbourConnected(g: Graph, u: Name, v: Name)
    requires Undirected(g) && Adjacent(g, u, v)
    ensures Connected(g, u, v)
  {
    assert WalkBetween(g, [u, v], u, v);
  }

  lemma ConnectedTransitive(g: Graph, u: Name, v: Name, w: Name)
    requires Connected(g, u, v) && Connected(g, v, w)
    ensures Connected(g, u, w)
  {
    var p :| WalkBetween(g, p, u, v);
    var q :| WalkBetween(g, q, v, w);
    var r := p + q[1..];
    forall i | 0 < i < |r| ensures r[i] in g && Adjacent(g, r[i - 1], r[i]) {
      if i >= |p| { assert r[i] == q[i - |p| + 1] && r[i - 1] == q[i - |p|]; }
    }
    assert WalkBetween(g, r, u, w);
  }

  lemma {:induction false} WalkBack(g: Graph, p: seq<Name>)
    requires Undirected(g) && Walk(g, p)
    ensures Connected(g, p[|p| - 1], p[0])
  {
    if |p| == 1 {
      ConnectedToSelf(g, p[0]);
    } else {
      var q := p[1..];
      assert forall i :: 0 < i < |q| ==> q[i] == p[i + 1] && q[i - 1] == p[i];
      WalkBack(g, q);
      assert Adjacent(g, p[0], p[1]);
      NeighbourConnected(g, p[1], p[0]);
      ConnectedTransitive(g, p[|p| - 1], p[1], p[0]);
    }
  }

  lemma ConnectedSymmetric(g: Graph, u: Name, v: Name)
    requires Undirected(g) && Connected(g, u, v)
    ensures Connected(g, v, u)
  {
    var p :| WalkBetween(g, p, u, v);
    WalkBack(g, p);
  }

  lemma IsolatedConnectedOnlyToSelf(g: Graph, u: Name, v: Name)
    requires Undirected(g) && v in g && g[v] == {} && Connected(g, u, v)
    ensures u == v
  {
    var p :| WalkBetween(g, p, u, v);
    assert |p| > 1 ==> !Adjacent(g, v, p[|p| - 2]);
  }

  // ---------------------------------------------------------------- labels stay in their component

  ghost predicate InComponent(g: Graph, labels: Labels, u: Name) {
    u in labels && Connected(g, u, labels[u])
  }

  ghost predicate AllInComponent(g: Graph, labels: Labels) {
    forall u {:trigger InComponent(g, labels, u)} :: u in g ==> InComponent(g, labels, u)
  }

  lemma StepInComponent(g: Graph, labels: Labels, u: Name)
    requires Undirected(g) && Labelling(g, labels) && u in g && AllInComponent(g, labels)
    ensures AllInComponent(g, Step(g, labels, u))
  {
    var r := Step(g, labels, u);
    forall w | w in g ensures InComponent(g, r, w) {
      assert InComponent(g, labels, w);
      if w == u && Neighbours(g, u) != {} {
        var v :| v in Neighbours(g, u) && labels[v] == r[u];
        assert Adjacent(g, u, v) && InComponent(g, labels, v);
        NeighbourConnected(g, u, v);
        ConnectedTransitive(g, u, v, r[u]);
      }
    }
  }

  lemma {:induction false} SweepInComponent(g: Graph, labels: Labels, nodes: seq<Name>)
    requires Ready(g, labels, nodes) && AllInComponent(g, labels)
    ensures AllInComponent(g, Sweep(g, labels, nodes))
    decreases |nodes|
  {
    hide Step, Undirected, Labelling, AllInComponent;
    if nodes != [] {
      SweepInComponent(g, labels, nodes[..|nodes| - 1]);
      StepInComponent(g, Sweep(g, labels, nodes[..|nodes| - 1]), nodes[|nodes| - 1]);
    }
  }

  lemma {:induction false} SweepsInComponent(g: Graph, labels: Labels, nodes: seq<Name>, k: nat)
    requires Ready(g, labels, nodes) && AllInComponent(g, labels)
    ensures AllInComponent(g, Sweeps(g, labels, nodes, k))
  {
    hide Sweep, Undirected, Labelling, AllInComponent;
    if k > 0 {
      SweepsInComponent(g, labels, nodes, k - 1);
      SweepInComponent(g, Sweeps(g, labels, nodes, k - 1), nodes);
    }
  }

  lemma LabelsInComponent(g: Graph, nodes: seq<Name>, k: nat)
    requires Undirected(g) && Covers(nodes, g)
    requires Ready(g, Singletons(nodes), nodes)
    ensures AllInComponent(g, Sweeps(g, Singletons(nodes), nodes, k))
  {
    forall u | u in g ensures InComponent(g, Singletons(nodes), u) { ConnectedToSelf(g, u); }
    SweepsInComponent(g, Singletons(nodes), nodes, k);
  }

  /** Two symbols with one label are connected. */
  lemma SameLabelConnected(g: Graph, labels: Labels, u: Name, v: Name)
    requires Undirected(g) && Labelling(g, labels) && AllInComponent(g, labels)
    requires u in g && v in g && labels[u] == labels[v]
    ensures Connected(g, u, v)
  {
    assert InComponent(g, labels, u) && InComponent(g, labels, v);
    ConnectedSymmetric(g, v, labels[v]);
    ConnectedTransitive(g, u, labels[u], v);
  }

  /** A symbol without neighbours keeps its own name as label and shares it with nobody. */
  lemma IsolatedStaysSingleton(g: Graph, labels: Labels, u: Name, v: Name)
    requires Undirected(g) && Labelling(g, labels) && AllInComponent(g, labels)
    requires u in g && v in g && g[u] == {}
    ensures labels[u] == u && (labels[v] == labels[u] ==> v == u)
  {
    assert InComponent(g, labels, u) && InComponent(g, labels, v);
    ConnectedSymmetric(g, u, labels[u]);
    IsolatedConnectedOnlyToSelf(g, labels[u], u);
    if labels[v] == u { IsolatedConnectedOnlyToSelf(g, v, u); }
  }

  // ---------------------------------------------------------------- the adjacency relation

  /** The text after the last dot: `name.rsplit(".", 1)[-1]`. */
  function LastSegment(name: string): string {
    if name == [] || name[|name| - 1] == '.' then []
    else LastSegment(name[..|name| - 1]) + [name[|name| - 1]]
  }

  /** It is the dot-free suffix that is the whole name or follows a dot. */
  lemma {:induction false} LastSegmentIsSuffix(name: string)
    ensures var r := LastSegment(name);
            && '.' !in r && |r| <= |name| && name[|name| - |r|..] == r
            && (|r| < |name| ==> name[|name| - |r| - 1] == '.')
  {
    if name != [] && name[|name| - 1] != '.' {
      LastSegmentIsSuffix(name[..|name| - 1]);
    }
  }

  ghost predicate OnlyCandidate(known: set<Name>, segment: string, n: Name) {
    && n in known && LastSegment(n) == segment
    && forall m :: m in known && LastSegment(m) == segment ==> m == n
  }

  /** An edge target resolves to the symbol of that exact FQN, or else to the only symbol with its last segment. */
  ghost predicate ResolvesTo(known: set<Name>, target: Name, n: Name) {
    if target in known then n == target else OnlyCandidate(known, LastSegment(target), n)
  }

  ghost predicate Links(known: set<Name>, e: Edge, a: Name, b: Name) {
    && e.source == Some(a) && a in known && a != b
    && e.target.Some? && e.target.value != "" && ResolvesTo(known, e.target.value, b)
  }

  ghost predicate Linked(known: set<Name>, edges: seq<Edge>, a: Name, b: Name) {
    exists e :: e in edges && (Links(known, e, a, b) || Links(known, e, b, a))
  }

  /** The adjacency relation a list of edges stands for. */
  ghost predicate IsAdjacency(g: Graph, known: set<Name>, edges: seq<Edge>) {
    && g.Keys == known
    && forall a, b :: Adjacent(g, a, b) <==> Linked(known, edges, a, b)
  }

  lemma AdjacencyUndirected(g: Graph, known: set<Name>, edges: seq<Edge>)
    requires IsAdjacency(g, known, edges)
    ensures Undirected(g)
  {
    forall u, v | Adjacent(g, u, v) ensures v != u && v in g && Adjacent(g, v, u) {
      var e :| e in edges && (Links(known, e, u, v) || Links(known, e, v, u));
      assert Linked(known, edges, v, u);
    }
  }

  /** Permuting or repeating edges, or listing the symbols in another order, changes nothing. */
  lemma AdjacencyIgnoresOrder(g: Graph, g': Graph, known: set<Name>, edges: seq<Edge>, edges': seq<Edge>)
    requires IsAdjacency(g, known, edges) && IsAdjacency(g', known, edges')
    requires forall e :: e in edges <==> e in edges'
    ensures g == g'
  {
    forall u | u in g ensures g[u] == g'[u] {
      forall v ensures v in g[u] <==> v in g'[u] {
        assert Adjacent(g, u, v) <==> Linked(known, edges, u, v);
        assert Adjacent(g', u, v) <==> Linked(known, edges', u, v);
      }
    }
  }

  /** The symbols sharing a last segment, in the order they are listed. */
  function Candidates(names: seq<Name>, segment: string): seq<Name> {
    if names == [] then []
    else
      var init := Candidates(names[..|names| - 1], segment);
      if LastSegment(names[|names| - 1]) == segment then init + [names[|names| - 1]] else init
  }

  lemma {:induction false} CandidatesExact(names: seq<Name>, segment: string)
    requires Distinct(names)
    ensures var r := Candidates(names, segment);
            Distinct(r) && forall n :: n in r <==> n in names && LastSegment(n) == segment
  {
    hide LastSegment;
    if names != [] {
      var init := names[..|names| - 1];
      CandidatesExact(init, segment);
      assert names == init + [names[|names| - 1]];
    }
  }

  method IndexBySegment(names: seq<Name>) returns (index: map<string, seq<Name>>)
    ensures forall s :: s in index ==> index[s] == Candidates(names, s)
    ensures forall s :: s !in index ==> Candidates(names, s) == []
  {
    index := map[];
    for i := 0 to |names|
      invariant forall s :: s in index ==> index[s] == Candidates(names[..i], s)
      invariant forall s :: s !in index ==> Candidates(names[..i], s) == []
    {
      assert names[..i + 1][..i] == names[..i] && names[..i + 1][i] == names[i];
      var s := LastSegment(names[i]);
      index := index[s := (if s in index then index[s] else []) + [names[i]]];
    }
    assert names[..|names|] == names;
  }

  method Resolve(target: Name, names: seq<Name>, index: map<string, seq<Name>>) returns (r: Option<Name>)
    requires Distinct(names)
    requires forall s :: s in index ==> index[s] == Candidates(names, s)
    requires forall s :: s !in index ==> Candidates(names, s) == []
    ensures forall n :: r == Some(n) <==> ResolvesTo((set m | m in names), target, n)
  {
    ghost var known := set m | m in names;
    if target in names { return Some(target); }
    var s := LastSegment(target);
    CandidatesExact(names, s);
    ghost var found := Candidates(names, s);
    assert forall n :: n in found <==> n in known && LastSegment(n) == s;
    hide LastSegment, Candidates;
    if s in index && |index[s]| == 1 {
      assert OnlyCandidate(known, s, found[0]);
      return Some(index[s][0]);
    }
    assert |found| > 1 ==> found[0] in found && found[1] in found;
    assert forall n :: OnlyCandidate(known, s, n) ==> n in found;
    return None;
  }

  function AddLink(g: Graph, a: Name, b: Name): (r: Graph)
    requires a in g && b in g
    ensures r.Keys == g.Keys
    ensures forall x, y :: Adjacent(r, x, y) <==> Adjacent(g, x, y) || (x == a && y == b) || (x == b && y == a)
  {
    var h := g[a := g[a] + {b}];
    h[b := h[b] + {a}]
  }

  method BuildAdjacency(names: seq<Name>, edges: seq<Edge>) returns (adjacency: Graph)
    requires Distinct(names)
    ensures IsAdjacency(adjacency, (set n | n in names), edges)
  {
    var index := IndexBySegment(names);
    adjacency := map n | n in names :: {};
    ghost var known := set n | n in names;
    for i := 0 to |edges|
      invariant IsAdjacency(adjacency, known, edges[..i])
    {
      var e := edges[i];
      assert edges[..i + 1] == edges[..i] + [e];
      hide IsAdjacency, LastSegment, Candidates, ResolvesTo;
      ghost var before := adjacency;
      if e.source.Some? && e.source.value in names && e.target.Some? && e.target.value != "" {
        var source := e.source.value;
        var resolved := Resolve(e.target.value, names, index);
        if resolved.Some? && resolved.value != source {
          assert Links(known, e, source, resolved.value);
          ResolvedIsKnown(known, e.target.value, resolved.value);
          OneLink(before, known, edges[..i], e, source, resolved.value);
          adjacency := AddLink(adjacency, source, resolved.value);
        } else {
          forall a, b ensures !Links(known, e, a, b) {
            assert ResolvesTo(known, e.target.value, b) <==> resolved == Some(b);
          }
          NoLink(before, known, edges[..i], e);
        }
      } else {
        NoLink(before, known, edges[..i], e);
      }
    }
    assert edges[..|edges|] == edges;
  }

  lemma NoLink(g: Graph, known: set<Name>, edges: seq<Edge>, e: Edge)
    requires IsAdjacency(g, known, edges) && forall a, b :: !Links(known, e, a, b)
    ensures IsAdjacency(g, known, edges + [e])
  {
    hide Links, Adjacent, Linked;
    forall a, b { LinkedAppend(known, edges, e, a, b); }
  }

  /** An edge links one pair only, since its target resolves to one symbol at most. */
  lemma OneLink(g: Graph, known: set<Name>, edges: seq<Edge>, e: Edge, u: Name, v: Name)
    requires IsAdjacency(g, known, edges) && Links(known, e, u, v) && v in known
    ensures u in g && IsAdjacency(AddLink(g, u, v), known, edges + [e])
  {
    forall a, b ensures Links(known, e, a, b) <==> a == u && b == v {}
    hide Links, Adjacent, Linked, AddLink;
    forall a, b { LinkedAppend(known, edges, e, a, b); }
  }

  lemma ResolvedIsKnown(known: set<Name>, target: Name, n: Name)
    requires ResolvesTo(known, target, n)
    ensures n in known
  {}

  lemma LinkedAppend(known: set<Name>, edges: seq<Edge>, e: Edge, a: Name, b: Name)
    ensures Linked(known, edges + [e], a, b)
       <==> Linked(known, edges, a, b) || Links(known, e, a, b) || Links(known, e, b, a)
  {
    assert e in edges + [e];
    assert forall x :: x in edges ==> x in edges + [e];
  }

  // ---------------------------------------------------------------- the edge count of a community

  function SumDegrees(g: Graph, members: seq<Name>): nat
    requires forall m :: m in members ==> m in g
  {
    if members == [] then 0 else |g[members[0]]| + SumDegrees(g, members[1..])
  }

  ghost function EdgesFrom(g: Graph, members: set<Name>): set<(Name, Name)> {
    set u, v | u in g && v in g && u in members && Adjacent(g, u, v) :: (u, v)
  }

  /** The edges inside a member set, each counted once with its smaller end first. */
  ghost function InternalEdges(g: Graph, members: set<Name>): set<(Name, Name)> {
    set u, v | u in g && v in g && u in members && v in members && Adjacent(g, u, v) && Less(u, v) :: (u, v)
  }

  /** The edges that leave a member set. */
  ghost function BoundaryEdges(g: Graph, members: set<Name>): set<(Name, Name)> {
    set u, v | u in g && v in g && u in members && v !in members && Adjacent(g, u, v) :: (u, v)
  }

  lemma {:induction false} DegreesCountEdgesFrom(g: Graph, members: seq<Name>)
    requires Undirected(g) && Distinct(members) && forall m :: m in members ==> m in g
    ensures SumDegrees(g, members) == |EdgesFrom(g, set m | m in members)|
  {
    if members == [] {
      assert EdgesFrom(g, set m | m in members) == {};
    } else {
      var u, rest := members[0], members[1..];
      DegreesCountEdgesFrom(g, rest);
      var tail := set m | m in rest;
      assert (set m | m in members) == tail + {u};
      assert u !in rest;
      EdgesFromAdd(g, tail, u);
    }
  }

  lemma EdgesFromAdd(g: Graph, members: set<Name>, u: Name)
    requires Undirected(g) && u in g && u !in members
    ensures |EdgesFrom(g, members + {u})| == |EdgesFrom(g, members)| + |g[u]|
  {
    var before, added := EdgesFrom(g, members), PairsFrom(u, Neighbours(g, u));
    PairsFromCard(u, Neighbours(g, u));
    assert forall v :: v in Neighbours(g, u) <==> Adjacent(g, u, v);
    assert EdgesFrom(g, members + {u}) == before + added;
    assert before !! added;
  }

  ghost function Flip<A(!new), B(!new)>(s: set<(A, B)>): set<(B, A)> {
    set p | p in s :: (p.1, p.0)
  }

  lemma {:induction false} FlipCard<A(!new), B(!new)>(s: set<(A, B)>)
    ensures |Flip(s)| == |s|
  {
    if s != {} {
      var x :| x in s;
      FlipCard(s - {x});
      assert Flip(s) == Flip(s - {x}) + {(x.1, x.0)};
    } else {
      assert Flip(s) == {};
    }
  }

  /** Handshake: every internal edge is seen from both ends, every boundary edge from one. */
  lemma Handshake(g: Graph, members: set<Name>)
    requires Undirected(g)
    ensures |EdgesFrom(g, members)| == 2 * |InternalEdges(g, members)| + |BoundaryEdges(g, members)|
  {
    var inner, outer := InternalEdges(g, members), BoundaryEdges(g, members);
    FlipCard(inner);
    forall p { EdgeFromCases(g, members, p); }
    hide EdgesFrom, InternalEdges, BoundaryEdges, Flip, Undirected;
    assert EdgesFrom(g, members) == inner + Flip(inner) + outer;
    assert inner !! Flip(inner) && inner + Flip(inner) !! outer;
    DisjointCard(inner, Flip(inner), outer);
  }

  /** An edge seen from a member is an internal one, or the other view of an internal one, or a boundary edge. */
  lemma EdgeFromCases(g: Graph, members: set<Name>, p: (Name, Name))
    requires Undirected(g)
    ensures var inner, outer := InternalEdges(g, members), BoundaryEdges(g, members);
            && (p in EdgesFrom(g, members) <==> p in inner || p in Flip(inner) || p in outer)
            && !(p in inner && p in Flip(inner)) && !(p in outer && (p in inner || p in Flip(inner)))
  {
    assert p == (p.0, p.1);
    LessTotal(p.0, p.1);
    assert p in Flip(InternalEdges(g, members)) <==> (p.1, p.0) in InternalEdges(g, members);
    if Less(p.0, p.1) { LessAsymmetric(p.0, p.1); }
  }

  /** Half the degree sum counts the internal edges plus half the boundary edges, rounded down. */
  lemma EdgeCount(g: Graph, members: seq<Name>)
    requires Undirected(g) && Distinct(members) && forall m :: m in members ==> m in g
    ensures var ms := set m | m in members;
            && SumDegrees(g, members) / 2 == |InternalEdges(g, ms)| + |BoundaryEdges(g, ms)| / 2
            && (Closed(g, ms) ==> SumDegrees(g, members) / 2 == |InternalEdges(g, ms)|)
  {
    var ms := set m | m in members;
    DegreesCountEdgesFrom(g, members);
    Handshake(g, ms);
    if Closed(g, ms) { assert BoundaryEdges(g, ms) == {}; }
  }

  ghost predicate Closed(g: Graph, members: set<Name>) {
    forall u, v :: u in members && Adjacent(g, u, v) ==> v in members
  }

  /** A whole connected component is closed, so its edge count is exact. */
  lemma ComponentClosed(g: Graph, members: set<Name>, root: Name)
    requires Undirected(g) && members <= g.Keys
    requires forall v :: v in g ==> (v in members <==> Connected(g, root, v))
    ensures Closed(g, members)
  {
    forall u, v | u in members && Adjacent(g, u, v) ensures v in members {
      NeighbourConnected(g, u, v);
      ConnectedTransitive(g, root, u, v);
    }
  }

  // ---------------------------------------------------------------- grouping

  /** The nodes carrying a label, in node order. */
  function Members(nodes: seq<Name>, labels: Labels, l: Name): seq<Name>
    requires forall n :: n in nodes ==> n in labels
  {
    if nodes == [] then []
    else
      var init := Members(nodes[..|nodes| - 1], labels, l);
      if labels[nodes[|nodes| - 1]] == l then init + [nodes[|nodes| - 1]] else init
  }

  lemma {:induction false} MembersExact(nodes: seq<Name>, labels: Labels, l: Name)
    requires forall n :: n in nodes ==> n in labels
    ensures forall n :: n in Members(nodes, labels, l) <==> n in nodes && labels[n] == l
    ensures StrictlySorted(nodes) ==> StrictlySorted(Members(nodes, labels, l))
  {
    if nodes != [] {
      var init, last := nodes[..|nodes| - 1], nodes[|nodes| - 1];
      MembersExact(init, labels, l);
      assert nodes == init + [last];
      if StrictlySorted(nodes) {
        forall m | m in init ensures Less(m, last) { var i :| 0 <= i < |init| && init[i] == m; }
      }
    }
  }

  method GroupByLabel(nodes: seq<Name>, labels: Labels) returns (groups: map<Name, seq<Name>>, order: seq<Name>)
    requires forall n :: n in nodes ==> n in labels
    ensures forall l :: l in groups ==> groups[l] == Members(nodes, labels, l) && groups[l] != []
    ensures forall l :: l !in groups ==> Members(nodes, labels, l) == []
    ensures Distinct(order) && forall l :: l in order <==> l in groups
  {
    groups, order := map[], [];
    for i := 0 to |nodes|
      invariant forall l :: l in groups ==> groups[l] == Members(nodes[..i], labels, l) && groups[l] != []
      invariant forall l :: l !in groups ==> Members(nodes[..i], labels, l) == []
      invariant Distinct(order) && forall l :: l in order <==> l in groups
    {
      assert nodes[..i + 1][..i] == nodes[..i] && nodes[..i + 1][i] == nodes[i];
      var l := labels[nodes[i]];
      if l in groups {
        groups := groups[l := groups[l] + [nodes[i]]];
      } else {
        groups := groups[l := [nodes[i]]];
        order := order + [l];
      }
    }
    assert nodes[..|nodes|] == nodes;
  }

  // ---------------------------------------------------------------- the members reported

  function Degree(g: Graph, n: Name): nat { if n in g then |g[n]| else 0 }

  /** More neighbours first, then by name. */
  function RanksBefore(g: Graph): (Name, Name) -> bool {
    (a, b) => Degree(g, a) > Degree(g, b) || (Degree(g, a) == Degree(g, b) && Less(a, b))
  }

  /** The best connected members, at most as many as the settings allow. */
  function Reported(g: Graph, members: seq<Name>, lim: Limits): seq<Name> {
    var ranked := Sorted(members, RanksBefore(g));
    if |ranked| <= lim.maxMembers then ranked else ranked[..lim.maxMembers]
  }

  lemma RankingIsOrder(g: Graph)
    ensures IsWeakOrder(RanksBefore(g))
  {
    var before := RanksBefore(g);
    forall a, b | before(a, b) ensures !before(b, a) {
      if Less(a, b) { LessAsymmetric(a, b); }
    }
    forall a, b, c | !before(a, b) && !before(b, c) ensures !before(a, c) {
      LessTotal(a, b);
      LessTotal(b, c);
      if Less(b, a) && Less(c, b) {
        LessTransitive(c, b, a);
        LessAsymmetric(c, a);
      }
      if Less(a, c) { LessAsymmetric(a, c); }
    }
  }

  /** What the ranking means: `a` has more neighbours than `b`, or as many and a smaller name. */
  predicate Outranks(g: Graph, a: Name, b: Name) {
    a in g && b in g && (|g[a]| > |g[b]| || (|g[a]| == |g[b]| && Less(a, b)))
  }

  /** The best connected members in their order: as many as there is room for, and none left out outranks one of them. */
  ghost predicate AreBest(g: Graph, members: seq<Name>, max: nat, r: seq<Name>) {
    && |r| == Min(|members|, max)
    && (forall m :: m in r ==> m in members)
    && (forall i, j :: 0 <= i < j < |r| ==> Outranks(g, r[i], r[j]))
    && (forall m, out :: m in r && out in members && out !in r ==> Outranks(g, m, out))
  }

  lemma NotBeforeIsOutranked(g: Graph, a: Name, b: Name)
    requires a in g && b in g && a != b && !RanksBefore(g)(b, a)
    ensures Outranks(g, a, b)
  {
    LessTotal(a, b);
  }

  /** The members reported are the best connected ones, best first. */
  lemma ReportedAreTheBest(g: Graph, members: seq<Name>, lim: Limits)
    requires Distinct(members) && forall m :: m in members ==> m in g
    ensures AreBest(g, members, lim.maxMembers, Reported(g, members, lim))
  {
    var before := RanksBefore(g);
    var ranked, r := Sorted(members, before), Reported(g, members, lim);
    RankingIsOrder(g);
    SortedInOrder(members, before);
    SortedMembers(members, before);
    SortedDistinct(members, before);
    assert forall j :: 0 <= j < |r| ==> r[j] == ranked[j];
    hide Sorted, RanksBefore, IsWeakOrder, Outranks;
    forall i, j | 0 <= i < j < |ranked| ensures Outranks(g, ranked[i], ranked[j]) {
      assert ranked[i] in ranked && ranked[j] in ranked;
      NotBeforeIsOutranked(g, ranked[i], ranked[j]);
    }
    forall m | m in r ensures m in members { assert m in ranked; }
    forall m, out | m in r && out in members && out !in r ensures Outranks(g, m, out) {
      var i :| 0 <= i < |r| && r[i] == m;
      var j :| 0 <= j < |ranked| && ranked[j] == out;
    }
  }

  lemma BestNotEmpty(g: Graph, members: seq<Name>, max: nat, r: seq<Name>)
    requires AreBest(g, members, max, r) && members != [] && max > 0
    ensures r != []
  {}

  lemma FirstIsBest(g: Graph, members: seq<Name>, max: nat, r: seq<Name>)
    requires AreBest(g, members, max, r) && r != []
    ensures r[0] in members && forall m :: m in members && m != r[0] ==> Outranks(g, r[0], m)
  {
    hide Outranks;
    assert r[0] in r;
    forall m | m in members && m != r[0] ensures Outranks(g, r[0], m) {
      if m in r { var i :| 0 <= i < |r| && r[i] == m; }
    }
  }

  /** What the source promises of one community: the symbols of one label, connected, with its edge count. */
  ghost predicate IsCommunityOf(c: Community, g: Graph, nodes: seq<Name>, labels: Labels, lim: Limits, l: Name)
    requires Undirected(g) && forall n :: n in nodes ==> n in labels && n in g
  {
    var all := Members(nodes, labels, l);
    var ms := set m | m in all;
    && AreBest(g, all, lim.maxMembers, c.members)
    && c.representative in all && (forall m :: m in all && m != c.representative ==> Outranks(g, c.representative, m))
    && c.size == |all|
    && c.edgeCount == |InternalEdges(g, ms)| + |BoundaryEdges(g, ms)| / 2
    && forall a, b :: a in all && b in all ==> Connected(g, a, b)
  }

  ghost predicate Disjoint(a: Community, b: Community) {
    forall m :: m in a.members ==> m !in b.members
  }

  lemma CommunityConnected(g: Graph, nodes: seq<Name>, labels: Labels, l: Name)
    requires Undirected(g) && Labelling(g, labels) && Covers(nodes, g) && AllInComponent(g, labels)
    ensures forall a, b :: a in Members(nodes, labels, l) && b in Members(nodes, labels, l) ==> Connected(g, a, b)
  {
    MembersExact(nodes, labels, l);
    forall a, b | a in Members(nodes, labels, l) && b in Members(nodes, labels, l) ensures Connected(g, a, b) {
      SameLabelConnected(g, labels, a, b);
    }
  }

  lemma MembersDisjoint(nodes: seq<Name>, labels: Labels, l: Name, l': Name)
    requires l != l' && forall n :: n in nodes ==> n in labels
    ensures forall m :: m in Members(nodes, labels, l) ==> m !in Members(nodes, labels, l')
  {
    MembersExact(nodes, labels, l);
    MembersExact(nodes, labels, l');
  }

  ghost predicate OnNodes(g: Graph, nodes: seq<Name>, labels: Labels) {
    Undirected(g) && forall n :: n in nodes ==> n in labels && n in g
  }

  /** The community of some label, and large enough. */
  ghost predicate IsCommunity(c: Community, g: Graph, nodes: seq<Name>, labels: Labels, lim: Limits)
    requires OnNodes(g, nodes, labels)
  {
    c.size >= lim.minSize && exists l :: IsCommunityOf(c, g, nodes, labels, lim, l)
  }

  /** If the label class is large enough, its community is there. */
  ghost predicate HasCommunity(cs: seq<Community>, g: Graph, nodes: seq<Name>, labels: Labels, lim: Limits, l: Name)
    requires OnNodes(g, nodes, labels)
  {
    |Members(nodes, labels, l)| >= lim.minSize && Members(nodes, labels, l) != [] ==>
      exists c :: c in cs && IsCommunityOf(c, g, nodes, labels, lim, l)
  }

  /** The communities are exactly those of the large enough label classes, and pairwise disjoint. */
  ghost predicate AreCommunities(cs: seq<Community>, g: Graph, nodes: seq<Name>, labels: Labels, lim: Limits)
    requires OnNodes(g, nodes, labels)
  {
    && (forall c :: c in cs ==> IsCommunity(c, g, nodes, labels, lim))
    && (forall l :: HasCommunity(cs, g, nodes, labels, lim, l))
    && (forall i, j :: 0 <= i < j < |cs| ==> Disjoint(cs[i], cs[j]))
  }

  /** The communities built so far, and the labels they are built from. */
  ghost predicate BuiltFrom(
    cs: seq<Community>, from: seq<Name>, g: Graph, nodes: seq<Name>, labels: Labels, lim: Limits)
    requires OnNodes(g, nodes, labels)
  {
    && |from| == |cs| && Distinct(from)
    && forall k :: 0 <= k < |cs| ==>
         cs[k].size >= lim.minSize && IsCommunityOf(cs[k], g, nodes, labels, lim, from[k])
  }

  lemma OneMoreBuilt(
    cs: seq<Community>, from: seq<Name>, c: Community, l: Name, g: Graph, nodes: seq<Name>, labels: Labels, lim: Limits)
    requires OnNodes(g, nodes, labels) && BuiltFrom(cs, from, g, nodes, labels, lim) && l !in from
    requires c.size >= lim.minSize && IsCommunityOf(c, g, nodes, labels, lim, l)
    ensures BuiltFrom(cs + [c], from + [l], g, nodes, labels, lim)
  {
    hide IsCommunityOf, OnNodes;
  }

  lemma NothingBuilt(g: Graph, nodes: seq<Name>, labels: Labels, lim: Limits)
    requires Undirected(g) && Labelling(g, labels) && Covers(nodes, g)
    ensures OnNodes(g, nodes, labels) && BuiltFrom([], [], g, nodes, labels, lim)
  {}

  /** The loop over the groups: one community per label class of at least the minimum size. */
  method BuildCommunities(nodes: seq<Name>, adjacency: Graph, labels: Labels, lim: Limits)
    returns (communities: seq<Community>)
    requires lim.maxMembers > 0
    requires Undirected(adjacency) && Labelling(adjacency, labels) && AllInComponent(adjacency, labels)
    requires StrictlySorted(nodes) && Covers(nodes, adjacency)
    ensures OnNodes(adjacency, nodes, labels) && AreCommunities(communities, adjacency, nodes, labels, lim)
  {
    NothingBuilt(adjacency, nodes, labels, lim);
    hide IsCommunityOf, Undirected, AllInComponent, Members, StrictlySorted, AreCommunities, OnNodes, BuiltFrom, Outranks;
    var groups, order := GroupByLabel(nodes, labels);
    communities := [];
    ghost var from: seq<Name> := [];
    for i := 0 to |order|
      invariant BuiltFrom(communities, from, adjacency, nodes, labels, lim)
      invariant forall l :: l in from <==> l in order[..i] && |groups[l]| >= lim.minSize
    {
      var l := order[i];
      assert l !in order[..i] && order[..i + 1] == order[..i] + [l];
      var members := groups[l];
      if |members| >= lim.minSize {
        MembersExact(nodes, labels, l);
        StrictlySortedIsDistinct(members);
        ReportedAreTheBest(adjacency, members, lim);
        var reported := Reported(adjacency, members, lim);
        hide Reported, AreBest;
        BestNotEmpty(adjacency, members, lim.maxMembers, reported);
        var c := Community(reported, reported[0], |members|, SumDegrees(adjacency, members) / 2);
        CommunityFromLabel(c, adjacency, nodes, labels, lim, l);
        OneMoreBuilt(communities, from, c, l, adjacency, nodes, labels, lim);
        communities := communities + [c];
        from := from + [l];
      }
    }
    assert order[..|order|] == order;
    OnePerLabel(communities, from, adjacency, nodes, labels, lim);
  }

  lemma OnePerLabel(cs: seq<Community>, from: seq<Name>, g: Graph, nodes: seq<Name>, labels: Labels, lim: Limits)
    requires OnNodes(g, nodes, labels) && BuiltFrom(cs, from, g, nodes, labels, lim)
    requires forall l :: |Members(nodes, labels, l)| >= lim.minSize && Members(nodes, labels, l) != [] ==> l in from
    ensures AreCommunities(cs, g, nodes, labels, lim)
  {
    hide IsCommunityOf, Undirected, Members, Disjoint;
    forall i, j | 0 <= i < j < |cs| ensures Disjoint(cs[i], cs[j]) {
      CommunitiesDisjoint(cs[i], cs[j], g, nodes, labels, lim, from[i], from[j]);
    }
    forall l ensures HasCommunity(cs, g, nodes, labels, lim, l) {
      if |Members(nodes, labels, l)| >= lim.minSize && Members(nodes, labels, l) != [] {
        var k :| 0 <= k < |from| && from[k] == l;
        assert cs[k] in cs;
      }
    }
    forall c | c in cs ensures IsCommunity(c, g, nodes, labels, lim) {
      var k :| 0 <= k < |cs| && cs[k] == c;
    }
  }

  lemma CommunityFromLabel(c: Community, g: Graph, nodes: seq<Name>, labels: Labels, lim: Limits, l: Name)
    requires Undirected(g) && Labelling(g, labels) && AllInComponent(g, labels)
    requires StrictlySorted(nodes) && Covers(nodes, g)
    requires var all := Members(nodes, labels, l);
             && AreBest(g, all, lim.maxMembers, c.members) && c.members != [] && c.representative == c.members[0]
             && c.size == |all|
             && (forall m :: m in all ==> m in g) && c.edgeCount == SumDegrees(g, all) / 2
    ensures IsCommunityOf(c, g, nodes, labels, lim, l)
  {
    FirstIsBest(g, Members(nodes, labels, l), lim.maxMembers, c.members);
    hide AreBest, Outranks;
    MembersExact(nodes, labels, l);
    StrictlySortedIsDistinct(Members(nodes, labels, l));
    EdgeCount(g, Members(nodes, labels, l));
    CommunityConnected(g, nodes, labels, l);
  }

  /** The FQNs that are not empty. */
  function NonEmpty(fqns: seq<Name>): (r: seq<Name>)
    ensures forall n :: n in r <==> n in fqns && n != ""
  {
    if fqns == [] then []
    else
      assert fqns == fqns[..|fqns| - 1] + [fqns[|fqns| - 1]];
      NonEmpty(fqns[..|fqns| - 1]) + if fqns[|fqns| - 1] == "" then [] else [fqns[|fqns| - 1]]
  }

  function Symbols(fqns: seq<Name>): (nodes: seq<Name>)
    ensures StrictlySorted(nodes) && forall n :: n in nodes <==> n in fqns && n != ""
  {
    SortedNames(NonEmpty(fqns))
  }

  /** The graph of a list of symbols and edges; there is only one. */
  ghost function GraphOf(nodes: seq<Name>, edges: seq<Edge>): (g: Graph)
    ensures IsAdjacency(g, (set n | n in nodes), edges) && Undirected(g) && Covers(nodes, g)
  {
    var known := set n | n in nodes;
    var g := map u | u in known :: set v | v in known && Linked(known, edges, u, v);
    assert IsAdjacency(g, known, edges) by {
      forall a, b ensures Adjacent(g, a, b) <==> Linked(known, edges, a, b) {
        if Linked(known, edges, a, b) { LinkedAreKnown(known, edges, a, b); }
      }
    }
    AdjacencyUndirected(g, known, edges);
    g
  }

  lemma LinkedAreKnown(known: set<Name>, edges: seq<Edge>, a: Name, b: Name)
    requires Linked(known, edges, a, b)
    ensures a in known && b in known
  {
    var e :| e in edges && (Links(known, e, a, b) || Links(known, e, b, a));
    ResolvedIsKnown(known, e.target.value, if Links(known, e, a, b) then b else a);
  }

  /** The labels after 20 sweeps over the symbols, each starting on its own. */
  ghost function FinalLabels(nodes: seq<Name>, g: Graph): (labels: Labels)
    requires Undirected(g) && Covers(nodes, g)
    ensures OnNodes(g, nodes, labels) && Labelling(g, labels) && AllInComponent(g, labels)
  {
    SingletonsReady(g, nodes);
    LabelsInComponent(g, nodes, 20);
    Sweeps(g, Singletons(nodes), nodes, 20)
  }

  /**
   * Community detection.  The communities returned are exactly the label classes of at least
   * the minimum size: pairwise disjoint, each connected, each with its edge count and its best
   * connected members. Without room for one member the source raises an exception.
   */
  method Detect(fqns: seq<Name>, edges: seq<Edge>, lim: Limits) returns (communities: seq<Community>)
    requires lim.maxMembers > 0
    ensures var nodes := Symbols(fqns);
            var g := GraphOf(nodes, edges);
            AreCommunities(communities, g, nodes, FinalLabels(nodes, g), lim)
  {
    var nodes := Symbols(fqns);
    StrictlySortedIsDistinct(nodes);
    var adjacency := BuildAdjacency(nodes, edges);
    AdjacencyIgnoresOrder(adjacency, GraphOf(nodes, edges), (set n | n in nodes), edges, edges);
    hide *;
    var labels := Propagate(nodes, adjacency, 20);
    FinalLabelsAre(nodes, adjacency);
    communities := BuildCommunities(nodes, adjacency, labels, lim);
  }

  lemma FinalLabelsAre(nodes: seq<Name>, g: Graph)
    requires Undirected(g) && Covers(nodes, g)
    ensures Ready(g, Singletons(nodes), nodes) && FinalLabels(nodes, g) == Sweeps(g, Singletons(nodes), nodes, 20)
  {
    SingletonsReady(g, nodes);
  }

  lemma CommunitiesDisjoint(
    c: Community, c': Community, g: Graph, nodes: seq<Name>, labels: Labels, lim: Limits, l: Name, l': Name)
    requires Undirected(g) && (forall n :: n in nodes ==> n in labels && n in g) && l != l'
    requires IsCommunityOf(c, g, nodes, labels, lim, l) && IsCommunityOf(c', g, nodes, labels, lim, l')
    ensures Disjoint(c, c')
  {
    MembersDisjoint(nodes, labels, l, l');
  }
}
