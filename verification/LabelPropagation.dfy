/**
 * Label propagation over an undirected graph of symbol names
 * (apps/communities/community_detector.py).  The labels are overwritten while a sweep is
 * under way, so a node already sees the new labels of the nodes before it.
 */
module LabelPropagation {
  import opened Common

  type Name = string
  type Graph = map<Name, set<Name>>
  type Labels = map<Name, Name>

  /** Symmetric, loop-free, and closed over its own nodes. */
  ghost predicate Undirected(g: Graph) {
    forall u, v :: Adjacent(g, u, v) ==> v != u && v in g && Adjacent(g, v, u)
  }

  predicate Adjacent(g: Graph, u: Name, v: Name) {
    u in g && v in g[u]
  }

  ghost function Neighbours(g: Graph, u: Name): (r: set<Name>)
    requires Undirected(g) && u in g
    ensures r <= g.Keys && u !in r
  {
    assert forall v :: v in g[u] ==> Adjacent(g, u, v);
    g[u]
  }

  /** Every node has a label, and every label is the name of a node. */
  ghost predicate Labelling(g: Graph, labels: Labels) {
    && labels.Keys == g.Keys
    && forall u {:trigger NamesNode(g, labels, u)} :: u in labels ==> NamesNode(g, labels, u)
  }

  predicate NamesNode(g: Graph, labels: Labels, u: Name) {
    u in labels && labels[u] in g
  }

  // ---------------------------------------------------------------- choosing a label

  ghost function Voters(labels: Labels, neighbours: set<Name>, l: Name): set<Name>
    requires neighbours <= labels.Keys
  {
    set v | v in neighbours && labels[v] == l
  }

  ghost function Votes(labels: Labels, neighbours: set<Name>, l: Name): nat
    requires neighbours <= labels.Keys
  {
    |Voters(labels, neighbours, l)|
  }

  /** `b` is at least as good a choice as `l` under the sort key (-count, label). */
  ghost predicate Beats(labels: Labels, neighbours: set<Name>, b: Name, l: Name)
    requires neighbours <= labels.Keys
  {
    var vb, vl := Votes(labels, neighbours, b), Votes(labels, neighbours, l);
    vb > vl || (vb == vl && (b == l || Less(b, l)))
  }

  ghost predicate IsBest(labels: Labels, neighbours: set<Name>, b: Name)
    requires neighbours <= labels.Keys
  {
    && (exists v :: v in neighbours && labels[v] == b)
    && forall v :: v in neighbours ==> Beats(labels, neighbours, b, labels[v])
  }

  lemma BestIsUnique(labels: Labels, neighbours: set<Name>, b: Name, b': Name)
    requires neighbours <= labels.Keys
    requires IsBest(labels, neighbours, b) && IsBest(labels, neighbours, b')
    ensures b == b'
  {
    assert Beats(labels, neighbours, b, b') && Beats(labels, neighbours, b', b);
    if b != b' { LessAsymmetric(b, b'); }
  }

  lemma BeatsTransitive(labels: Labels, neighbours: set<Name>, a: Name, b: Name, c: Name)
    requires neighbours <= labels.Keys
    requires Beats(labels, neighbours, a, b) && Beats(labels, neighbours, b, c)
    ensures Beats(labels, neighbours, a, c)
  {
    if Less(a, b) && Less(b, c) { LessTransitive(a, b, c); }
  }

  /** The scan of `min` over the neighbours met so far. */
  method MostFrequent(labels: Labels, neighbours: set<Name>) returns (best: Name)
    requires neighbours != {} && neighbours <= labels.Keys
    ensures IsBest(labels, neighbours, best)
  {
    var counts: map<Name, nat> := map[];
    var rest := neighbours;
    while rest != {}
      invariant rest <= neighbours
      invariant counts.Keys == set v | v in neighbours - rest :: labels[v]
      invariant forall l :: l in counts ==> counts[l] == Votes(labels, neighbours - rest, l)
    {
      var v :| v in rest;
      ghost var seen := neighbours - rest;
      var l := labels[v];
      forall l' ensures Votes(labels, seen + {v}, l') == Votes(labels, seen, l') + if l' == l then 1 else 0 {
        VotesGrow(labels, seen, v, l');
      }
      if l !in counts { NoVotes(labels, seen, l); }
      counts := counts[l := (if l in counts then counts[l] else 0) + 1];
      rest := rest - {v};
      assert neighbours - rest == seen + {v};
    }
    assert neighbours - rest == neighbours;
    var first :| first in neighbours;
    best := labels[first];
    var todo := counts.Keys - {best};
    while todo != {}
      invariant todo <= counts.Keys && best in counts && best !in todo
      invariant forall l :: l in counts.Keys - todo ==> Beats(labels, neighbours, best, l)
    {
      var l :| l in todo;
      ghost var previous := best;
      if counts[l] > counts[best] || (counts[l] == counts[best] && Less(l, best)) {
        best := l;
      } else {
        LessTotal(l, best);
      }
      forall l' | l' in counts.Keys - (todo - {l}) ensures Beats(labels, neighbours, best, l') {
        if l' != l && best != previous { BeatsTransitive(labels, neighbours, best, previous, l'); }
      }
      todo := todo - {l};
    }
    forall v | v in neighbours ensures Beats(labels, neighbours, best, labels[v]) {
      assert labels[v] in counts.Keys - todo;
    }
  }

  lemma VotesGrow(labels: Labels, seen: set<Name>, v: Name, l: Name)
    requires seen <= labels.Keys && v in labels && v !in seen
    ensures Votes(labels, seen + {v}, l) == Votes(labels, seen, l) + if labels[v] == l then 1 else 0
  {
    var before, after := Voters(labels, seen, l), Voters(labels, seen + {v}, l);
    assert after == if labels[v] == l then before + {v} else before;
  }

  lemma NoVotes(labels: Labels, seen: set<Name>, l: Name)
    requires seen <= labels.Keys && l !in set v | v in seen :: labels[v]
    ensures Votes(labels, seen, l) == 0
  {
    assert (set w | w in seen && labels[w] == l) == {};
  }

  lemma {:induction false} BestExists(labels: Labels, neighbours: set<Name>, part: set<Name>) returns (b: Name)
    requires part != {} && part <= neighbours <= labels.Keys
    ensures exists v :: v in part && labels[v] == b
    ensures forall v :: v in part ==> Beats(labels, neighbours, b, labels[v])
  {
    var x :| x in part;
    if part == {x} {
      b := labels[x];
    } else {
      var c := BestExists(labels, neighbours, part - {x});
      LessTotal(c, labels[x]);
      if Beats(labels, neighbours, c, labels[x]) {
        b := c;
      } else {
        b := labels[x];
        forall v | v in part ensures Beats(labels, neighbours, b, labels[v]) {
          if v != x { BeatsTransitive(labels, neighbours, b, c, labels[v]); }
        }
      }
    }
  }

  /** The neighbour label of minimum (-count, label). */
  ghost function Best(labels: Labels, neighbours: set<Name>): (b: Name)
    requires neighbours != {} && neighbours <= labels.Keys
    ensures IsBest(labels, neighbours, b)
  {
    assert exists b :: IsBest(labels, neighbours, b) by {
      var b := BestExists(labels, neighbours, neighbours);
      assert IsBest(labels, neighbours, b);
    }
    var b :| IsBest(labels, neighbours, b);
    b
  }

  // ---------------------------------------------------------------- steps, sweeps, runs

  ghost predicate Ready(g: Graph, labels: Labels, nodes: seq<Name>) {
    Undirected(g) && Labelling(g, labels) && forall u :: u in nodes ==> u in g
  }

  function Relabel(g: Graph, labels: Labels, u: Name, b: Name): (r: Labels)
    requires Labelling(g, labels) && u in g && b in g
    ensures Labelling(g, r)
  {
    assert forall v :: v in labels ==> NamesNode(g, labels, v);
    labels[u := b]
  }

  ghost function Step(g: Graph, labels: Labels, u: Name): (r: Labels)
    requires Undirected(g) && Labelling(g, labels) && u in g
    ensures Labelling(g, r)
  {
    var neighbours := Neighbours(g, u);
    if neighbours == {} then labels
    else
      var b := Best(labels, neighbours);
      assert b in g by {
        var v :| v in neighbours && labels[v] == b;
        assert NamesNode(g, labels, v);
      }
      Relabel(g, labels, u, b)
  }

  ghost function Sweep(g: Graph, labels: Labels, nodes: seq<Name>): (r: Labels)
    requires Ready(g, labels, nodes)
    ensures Labelling(g, r)
    decreases |nodes|
  {
    if nodes == [] then labels
    else Step(g, Sweep(g, labels, nodes[..|nodes| - 1]), nodes[|nodes| - 1])
  }

  ghost function Sweeps(g: Graph, labels: Labels, nodes: seq<Name>, k: nat): (r: Labels)
    requires Ready(g, labels, nodes)
    ensures Labelling(g, r)
  {
    if k == 0 then labels else Sweep(g, Sweeps(g, labels, nodes, k - 1), nodes)
  }

  /** Every node that has neighbours carries the best label among them. */
  ghost predicate Settled(g: Graph, labels: Labels)
    requires Undirected(g) && Labelling(g, labels)
  {
    forall u :: u in g && Neighbours(g, u) != {} ==> labels[u] == Best(labels, Neighbours(g, u))
  }

  ghost predicate Covers(nodes: seq<Name>, g: Graph) {
    forall u :: u in g <==> u in nodes
  }

  function Singletons(nodes: seq<Name>): Labels {
    map u | u in nodes :: u
  }

  // ---------------------------------------------------------------- the potential

  /** Ordered adjacent pairs whose ends share a label: twice the number of agreeing edges. */
  ghost function AgreeingPairs(g: Graph, labels: Labels): set<(Name, Name)>
    requires Undirected(g) && Labelling(g, labels)
  {
    set u, v | u in g && v in g && Adjacent(g, u, v) && labels[u] == labels[v] :: (u, v)
  }

  /** Pairs (u, n) where the name n is smaller than u's label; it shrinks when a label gets smaller. */
  ghost function SmallerNames(g: Graph, labels: Labels): set<(Name, Name)>
    requires Labelling(g, labels)
  {
    set u, n | u in g && n in g && Less(n, labels[u]) :: (u, n)
  }

  ghost function AllPairs(g: Graph): set<(Name, Name)> {
    set u, n | u in g && n in g :: (u, n)
  }

  ghost function PairsFrom<A, B>(u: A, s: set<B>): set<(A, B)> {
    set v | v in s :: (u, v)
  }

  ghost function PairsInto<A, B>(u: B, s: set<A>): set<(A, B)> {
    set v | v in s :: (v, u)
  }

  lemma {:induction false} PairsFromCard<A, B>(u: A, s: set<B>)
    ensures |PairsFrom(u, s)| == |s|
  {
    if s == {} {
      assert PairsFrom(u, s) == {};
    } else {
      var x :| x in s;
      PairsFromCard(u, s - {x});
      assert PairsFrom(u, s) == PairsFrom(u, s - {x}) + {(u, x)};
    }
  }

  lemma {:induction false} PairsIntoCard<A, B>(u: B, s: set<A>)
    ensures |PairsInto(u, s)| == |s|
  {
    if s == {} {
      assert PairsInto(u, s) == {};
    } else {
      var x :| x in s;
      PairsIntoCard(u, s - {x});
      assert PairsInto(u, s) == PairsInto(u, s - {x}) + {(x, u)};
    }
  }

  /** The agreeing pairs not touching `u`, which relabelling `u` cannot change. */
  ghost function AgreeingElsewhere(g: Graph, labels: Labels, u: Name): set<(Name, Name)>
    requires Undirected(g) && Labelling(g, labels)
  {
    set x, y | x in g && y in g && Adjacent(g, x, y) && labels[x] == labels[y] && x != u && y != u :: (x, y)
  }

  /** The agreeing pairs split into those away from `u` and two per neighbour that agrees with `u`. */
  lemma AgreeingSplit(g: Graph, labels: Labels, u: Name)
    requires Undirected(g) && Labelling(g, labels) && u in g
    ensures |AgreeingPairs(g, labels)|
         == |AgreeingElsewhere(g, labels, u)| + 2 * Votes(labels, Neighbours(g, u), labels[u])
  {
    var voters := Voters(labels, Neighbours(g, u), labels[u]);
    AgreeingPartition(g, labels, u);
    PairsFromCard(u, voters);
    PairsIntoCard(u, voters);
    DisjointCard(AgreeingElsewhere(g, labels, u), PairsFrom(u, voters), PairsInto(u, voters));
  }

  lemma AgreeingPartition(g: Graph, labels: Labels, u: Name)
    requires Undirected(g) && Labelling(g, labels) && u in g
    ensures var voters := Voters(labels, Neighbours(g, u), labels[u]);
            && AgreeingPairs(g, labels)
               == AgreeingElsewhere(g, labels, u) + PairsFrom(u, voters) + PairsInto(u, voters)
            && AgreeingElsewhere(g, labels, u) !! PairsFrom(u, voters)
            && AgreeingElsewhere(g, labels, u) + PairsFrom(u, voters) !! PairsInto(u, voters)
  {
    forall p { AgreeingPairCases(g, labels, u, p); }
  }

  lemma AgreeingPairCases(g: Graph, labels: Labels, u: Name, p: (Name, Name))
    requires Undirected(g) && Labelling(g, labels) && u in g
    ensures var voters := Voters(labels, Neighbours(g, u), labels[u]);
            p in AgreeingPairs(g, labels)
            <==> p in AgreeingElsewhere(g, labels, u) || p in PairsFrom(u, voters) || p in PairsInto(u, voters)
  {
    assert p == (p.0, p.1);
    assert forall v :: v in Neighbours(g, u) <==> Adjacent(g, u, v);
  }

  /**
   * A label change strictly improves the lexicographic potential: more agreeing edges,
   * or as many and a smaller label.
   */
  lemma ChangeImproves(g: Graph, labels: Labels, u: Name)
    requires Undirected(g) && Labelling(g, labels) && u in g
    requires Step(g, labels, u) != labels
    ensures var r := Step(g, labels, u);
            || |AgreeingPairs(g, r)| > |AgreeingPairs(g, labels)|
            || (|AgreeingPairs(g, r)| == |AgreeingPairs(g, labels)| && Less(r[u], labels[u]))
  {
    var r := Step(g, labels, u);
    var a, b := labels[u], Best(labels, Neighbours(g, u));
    assert r == labels[u := b];
    assert labels[u := a] == labels;
    AgreeingSplit(g, labels, u);
    AgreeingSplit(g, r, u);
    assert AgreeingElsewhere(g, labels, u) == AgreeingElsewhere(g, r, u);
    assert forall v :: v in Neighbours(g, u) ==> r[v] == labels[v];
    assert Voters(r, Neighbours(g, u), b) == Voters(labels, Neighbours(g, u), b);
    var v :| v in Neighbours(g, u) && labels[v] == b;
    assert v in Voters(labels, Neighbours(g, u), b);
    if exists w :: w in Neighbours(g, u) && labels[w] == a {
      assert Beats(labels, Neighbours(g, u), b, a);
    } else {
      assert Voters(labels, Neighbours(g, u), a) == {};
    }
  }

  /** One number for the lexicographic potential; it counts down. */
  ghost function Energy(g: Graph, labels: Labels): nat
    requires Undirected(g) && Labelling(g, labels)
  {
    PotentialBounds(g, labels);
    (|AllPairs(g)| - |AgreeingPairs(g, labels)|) * (|AllPairs(g)| + 1) + |SmallerNames(g, labels)|
  }

  lemma {:induction false} AllPairsCard(g: Graph)
    ensures |AllPairs(g)| == |g| * |g|
  {
    RectangleCard(g.Keys, g.Keys);
    assert AllPairs(g) == Rectangle(g.Keys, g.Keys);
  }

  ghost function Rectangle<T>(a: set<T>, b: set<T>): set<(T, T)> {
    set u, n | u in a && n in b :: (u, n)
  }

  lemma OneMoreRow<T>(a: set<T>, b: set<T>, x: T)
    requires x in a
    ensures |Rectangle(a, b)| == |Rectangle(a - {x}, b)| + |b|
  {
    PairsFromCard(x, b);
    assert Rectangle(a, b) == Rectangle(a - {x}, b) + PairsFrom(x, b);
    assert Rectangle(a - {x}, b) !! PairsFrom(x, b);
  }

  lemma {:induction false} RectangleCard<T>(a: set<T>, b: set<T>)
    ensures |Rectangle(a, b)| == |a| * |b|
  {
    if a == {} {
      assert Rectangle(a, b) == {};
    } else {
      var x :| x in a;
      RectangleCard(a - {x}, b);
      OneMoreRow(a, b, x);
      hide Rectangle;
      assert (|a| - 1) * |b| == |a| * |b| - |b|;
    }
  }

  /** The potential of any labelling of n nodes is at most n^4 + 2 n^2. */
  lemma EnergyBound(g: Graph, labels: Labels)
    requires Undirected(g) && Labelling(g, labels)
    ensures var p := |g| * |g|; Energy(g, labels) <= p * p + 2 * p
  {
    AllPairsCard(g);
    PotentialBounds(g, labels);
    var p, a := |AllPairs(g)|, |AgreeingPairs(g, labels)|;
    MulMonotone(p - a, p, p + 1);
  }

  lemma MulMonotone(a: nat, b: nat, c: nat)
    requires a <= b
    ensures a * c <= b * c
  {}

  lemma StepLowersEnergy(g: Graph, labels: Labels, u: Name)
    requires Undirected(g) && Labelling(g, labels) && u in g
    requires Step(g, labels, u) != labels
    ensures Energy(g, Step(g, labels, u)) < Energy(g, labels)
  {
    var r := Step(g, labels, u);
    ChangeImproves(g, labels, u);
    PotentialBounds(g, labels);
    PotentialBounds(g, r);
    assert NamesNode(g, r, u);
    if Less(r[u], labels[u]) { SmallerLabelSmallerSet(g, labels, u, r[u]); }
    LexicographicDrop(|AllPairs(g)|, |AgreeingPairs(g, labels)|, |AgreeingPairs(g, r)|,
                      |SmallerNames(g, labels)|, |SmallerNames(g, r)|);
  }

  lemma PotentialBounds(g: Graph, labels: Labels)
    requires Undirected(g) && Labelling(g, labels)
    ensures |AgreeingPairs(g, labels)| <= |AllPairs(g)|
    ensures |SmallerNames(g, labels)| <= |AllPairs(g)|
  {
    SubsetCard(AgreeingPairs(g, labels), AllPairs(g));
    SubsetCard(SmallerNames(g, labels), AllPairs(g));
  }

  lemma LexicographicDrop(p: nat, a: nat, a': nat, s: nat, s': nat)
    requires a <= a' <= p && s' <= p
    requires a < a' || s' < s
    ensures (p - a') * (p + 1) + s' < (p - a) * (p + 1) + s
  {
    if a < a' {
      MulMonotone(p - a', p - a - 1, p + 1);
      assert (p - a - 1) * (p + 1) == (p - a) * (p + 1) - (p + 1);
    }
  }

  lemma SmallerLabelSmallerSet(g: Graph, labels: Labels, u: Name, b: Name)
    requires Labelling(g, labels) && u in g && b in g && Less(b, labels[u])
    ensures |SmallerNames(g, Relabel(g, labels, u, b))| < |SmallerNames(g, labels)|
  {
    var before, after := SmallerNames(g, labels), SmallerNames(g, Relabel(g, labels, u, b));
    forall p | p in after ensures p in before {
      if p.0 == u { LessTransitive(p.1, b, labels[u]); }
    }
    LessIrreflexive(b);
    assert (u, b) in before && (u, b) !in after;
    SubsetCard(after, before);
  }

  /** A sweep either changes nothing or lowers the energy, so a changing sweep never cycles. */
  lemma {:induction false} SweepLowersEnergy(g: Graph, labels: Labels, nodes: seq<Name>)
    requires Ready(g, labels, nodes)
    ensures Sweep(g, labels, nodes) == labels || Energy(g, Sweep(g, labels, nodes)) < Energy(g, labels)
    decreases |nodes|
  {
    if nodes != [] {
      var init, u := nodes[..|nodes| - 1], nodes[|nodes| - 1];
      SweepLowersEnergy(g, labels, init);
      var mid := Sweep(g, labels, init);
      if Step(g, mid, u) != mid { StepLowersEnergy(g, mid, u); }
    }
  }

  /** How many steps of a sweep change a label. */
  ghost function SweepChanges(g: Graph, labels: Labels, nodes: seq<Name>): nat
    requires Ready(g, labels, nodes)
    decreases |nodes|
  {
    if nodes == [] then 0
    else
      var mid := Sweep(g, labels, nodes[..|nodes| - 1]);
      SweepChanges(g, labels, nodes[..|nodes| - 1]) + if Step(g, mid, nodes[|nodes| - 1]) == mid then 0 else 1
  }

  /** How many steps of the first `k` sweeps change a label. */
  ghost function Changes(g: Graph, labels: Labels, nodes: seq<Name>, k: nat): nat
    requires Ready(g, labels, nodes)
  {
    if k == 0 then 0
    else Changes(g, labels, nodes, k - 1) + SweepChanges(g, Sweeps(g, labels, nodes, k - 1), nodes)
  }

  lemma {:induction false} SweepChangesCostEnergy(g: Graph, labels: Labels, nodes: seq<Name>)
    requires Ready(g, labels, nodes)
    ensures SweepChanges(g, labels, nodes) + Energy(g, Sweep(g, labels, nodes)) <= Energy(g, labels)
    decreases |nodes|
  {
    hide Energy, Step, Undirected, Labelling;
    if nodes != [] {
      var init, u := nodes[..|nodes| - 1], nodes[|nodes| - 1];
      SweepChangesCostEnergy(g, labels, init);
      var mid := Sweep(g, labels, init);
      if Step(g, mid, u) != mid { StepLowersEnergy(g, mid, u); }
    }
  }

  /** Every label change of a run is paid for by the potential. */
  lemma {:induction false} ChangesCostEnergy(g: Graph, labels: Labels, nodes: seq<Name>, k: nat)
    requires Ready(g, labels, nodes)
    ensures Changes(g, labels, nodes, k) + Energy(g, Sweeps(g, labels, nodes, k)) <= Energy(g, labels)
  {
    hide Energy, Sweep, Undirected, Labelling;
    if k > 0 {
      ChangesCostEnergy(g, labels, nodes, k - 1);
      SweepChangesCostEnergy(g, Sweeps(g, labels, nodes, k - 1), nodes);
    }
  }

  /** So however many sweeps are made over n nodes, at most n^4 + 2 n^2 labels change. */
  lemma ChangesBound(g: Graph, labels: Labels, nodes: seq<Name>, k: nat)
    requires Ready(g, labels, nodes)
    ensures var p := |g| * |g|; Changes(g, labels, nodes, k) <= p * p + 2 * p
  {
    hide Energy, Changes;
    ChangesCostEnergy(g, labels, nodes, k);
    EnergyBound(g, labels);
  }

  /** A sweep that ends where it began changed no label on the way: every step was idle. */
  lemma {:induction false} FixedSweepIsIdle(g: Graph, labels: Labels, nodes: seq<Name>, u: Name)
    requires Ready(g, labels, nodes) && Sweep(g, labels, nodes) == labels && u in nodes
    ensures Step(g, labels, u) == labels
    decreases |nodes|
  {
    var init, last := nodes[..|nodes| - 1], nodes[|nodes| - 1];
    var mid := Sweep(g, labels, init);
    SweepLowersEnergy(g, labels, init);
    if Step(g, mid, last) != mid { StepLowersEnergy(g, mid, last); }
    assert mid == labels;
    if u != last { FixedSweepIsIdle(g, labels, init, u); }
  }

  /** A fixed point of the sweep is settled, and a settled labelling is a fixed point. */
  lemma FixedIffSettled(g: Graph, labels: Labels, nodes: seq<Name>)
    requires Ready(g, labels, nodes) && Covers(nodes, g)
    ensures Sweep(g, labels, nodes) == labels <==> Settled(g, labels)
  {
    if Sweep(g, labels, nodes) == labels {
      forall u | u in g && Neighbours(g, u) != {} ensures labels[u] == Best(labels, Neighbours(g, u)) {
        FixedSweepIsIdle(g, labels, nodes, u);
      }
    }
    if Settled(g, labels) { SettledIsFixed(g, labels, nodes); }
  }

  lemma {:induction false} SettledIsFixed(g: Graph, labels: Labels, nodes: seq<Name>)
    requires Ready(g, labels, nodes) && Settled(g, labels)
    ensures Sweep(g, labels, nodes) == labels
    decreases |nodes|
  {
    if nodes != [] {
      SettledIsFixed(g, labels, nodes[..|nodes| - 1]);
      var u := nodes[|nodes| - 1];
      if Neighbours(g, u) != {} { assert labels[u := Best(labels, Neighbours(g, u))] == labels; }
    }
  }

  /** The sweep after the first `j` changes no label, which is what the early break looks for. */
  ghost predicate IdleSweep(g: Graph, labels: Labels, nodes: seq<Name>, j: nat)
    requires Ready(g, labels, nodes)
  {
    Sweeps(g, labels, nodes, j + 1) == Sweeps(g, labels, nodes, j)
  }

  lemma {:induction false} SweepsAdd(g: Graph, labels: Labels, nodes: seq<Name>, j: nat, k: nat)
    requires Ready(g, labels, nodes)
    ensures Sweeps(g, Sweeps(g, labels, nodes, j), nodes, k) == Sweeps(g, labels, nodes, j + k)
  {
    if k > 0 { SweepsAdd(g, labels, nodes, j, k - 1); }
  }

  lemma {:induction false} FixedForever(g: Graph, labels: Labels, nodes: seq<Name>, k: nat)
    requires Ready(g, labels, nodes) && Sweep(g, labels, nodes) == labels
    ensures Sweeps(g, labels, nodes, k) == labels
  {
    if k > 0 { FixedForever(g, labels, nodes, k - 1); }
  }

  lemma FirstSweep(g: Graph, labels: Labels, nodes: seq<Name>, k: nat)
    requires Ready(g, labels, nodes)
    ensures Sweeps(g, Sweep(g, labels, nodes), nodes, k) == Sweeps(g, labels, nodes, k + 1)
  {
    SweepsAdd(g, labels, nodes, 1, k);
    assert Sweeps(g, labels, nodes, 1) == Sweep(g, Sweeps(g, labels, nodes, 0), nodes);
  }

  lemma {:induction false} EnergySweepsSuffice(g: Graph, labels: Labels, nodes: seq<Name>, k: nat)
    requires Ready(g, labels, nodes) && k >= Energy(g, labels)
    ensures Sweeps(g, labels, nodes, k + 1) == Sweeps(g, labels, nodes, k)
    decreases k
  {
    hide Energy, Sweep, Undirected, Labelling;
    SweepLowersEnergy(g, labels, nodes);
    if Sweep(g, labels, nodes) == labels {
      FixedForever(g, labels, nodes, k);
    } else {
      EnergySweepsSuffice(g, Sweep(g, labels, nodes), nodes, k - 1);
      FirstSweep(g, labels, nodes, k - 1);
      FirstSweep(g, labels, nodes, k);
    }
  }

  /** Without the iteration cap the sweeps reach a settled labelling within Energy rounds and stay there. */
  lemma ConvergesWithoutCap(g: Graph, labels: Labels, nodes: seq<Name>, k: nat)
    requires Ready(g, labels, nodes) && Covers(nodes, g)
    requires k >= Energy(g, labels)
    ensures Sweeps(g, labels, nodes, k + 1) == Sweeps(g, labels, nodes, k)
    ensures Settled(g, Sweeps(g, labels, nodes, k))
  {
    EnergySweepsSuffice(g, labels, nodes, k);
    FixedIffSettled(g, Sweeps(g, labels, nodes, k), nodes);
  }

  // ---------------------------------------------------------------- the algorithm

  lemma PrefixSweep(g: Graph, before: Labels, nodes: seq<Name>, i: nat)
    requires Ready(g, before, nodes) && i < |nodes|
    ensures nodes[i] in g && Ready(g, before, nodes[..i]) && Ready(g, before, nodes[..i + 1])
    ensures Ready(g, Sweep(g, before, nodes[..i]), nodes)
    ensures Sweep(g, before, nodes[..i + 1]) == Step(g, Sweep(g, before, nodes[..i]), nodes[i])
  {
    assert nodes[..i + 1][..i] == nodes[..i] && nodes[..i + 1][i] == nodes[i];
  }

  lemma StepByBest(g: Graph, labels: Labels, u: Name, best: Name)
    requires Undirected(g) && Labelling(g, labels) && u in g && Neighbours(g, u) != {}
    requires IsBest(labels, Neighbours(g, u), best)
    ensures Step(g, labels, u) == labels[u := best]
    ensures labels[u] == best ==> Step(g, labels, u) == labels
  {
    BestIsUnique(labels, Neighbours(g, u), best, Best(labels, Neighbours(g, u)));
  }

  /** The inner loop: one pass over the nodes, overwriting labels as it goes. */
  method SweepInPlace(nodes: seq<Name>, adjacency: Graph, before: Labels) returns (labels: Labels, changed: bool)
    requires Ready(adjacency, before, nodes)
    ensures labels == Sweep(adjacency, before, nodes)
    ensures changed <==> labels != before
  {
    hide Energy, Undirected, IsBest, Step;
    labels, changed := before, false;
    assert nodes[..0] == [];
    var i := 0;
    while i < |nodes|
      invariant 0 <= i <= |nodes| && Ready(adjacency, before, nodes[..i])
      invariant labels == Sweep(adjacency, before, nodes[..i])
      invariant !changed ==> labels == before
      invariant changed ==> Energy(adjacency, labels) < Energy(adjacency, before)
    {
      PrefixSweep(adjacency, before, nodes, i);
      var node := nodes[i];
      var neighbours := adjacency[node];
      assert neighbours == Neighbours(adjacency, node);
      if neighbours != {} {
        var best := MostFrequent(labels, neighbours);
        StepByBest(adjacency, labels, node, best);
        if labels[node] != best {
          StepLowersEnergy(adjacency, labels, node);
          labels := labels[node := best];
          changed := true;
        }
      } else {
        IsolatedStep(adjacency, labels, node);
      }
      i := i + 1;
    }
    assert nodes[..|nodes|] == nodes;
  }

  lemma IsolatedStep(g: Graph, labels: Labels, u: Name)
    requires Undirected(g) && Labelling(g, labels) && u in g && Neighbours(g, u) == {}
    ensures Step(g, labels, u) == labels
  {}

  lemma BreakIsFinal(g: Graph, start: Labels, nodes: seq<Name>, round: nat, cap: nat)
    requires Ready(g, start, nodes) && Covers(nodes, g) && round <= cap
    requires Sweep(g, Sweeps(g, start, nodes, round), nodes) == Sweeps(g, start, nodes, round)
    ensures Sweeps(g, start, nodes, cap) == Sweeps(g, start, nodes, round)
    ensures Settled(g, Sweeps(g, start, nodes, round))
  {
    hide Undirected, Labelling, Settled;
    var labels := Sweeps(g, start, nodes, round);
    FixedIffSettled(g, labels, nodes);
    FixedForever(g, labels, nodes, cap - round);
    SweepsAdd(g, start, nodes, round, cap - round);
  }

  lemma SingletonsReady(g: Graph, nodes: seq<Name>)
    requires Undirected(g) && Covers(nodes, g)
    ensures Ready(g, Singletons(nodes), nodes)
  {
    var labels := Singletons(nodes);
    assert forall u :: u in labels ==> NamesNode(g, labels, u);
  }

  /**
   * The propagation loop.  It returns the labels after `maxIterations` in-place sweeps; if any of
   * those sweeps changed nothing the early break is taken and the labels are settled.
   */
  method Propagate(nodes: seq<Name>, adjacency: Graph, maxIterations: nat := 20) returns (labels: Labels)
    requires Undirected(adjacency) && Covers(nodes, adjacency)
    ensures Ready(adjacency, Singletons(nodes), nodes)
    ensures labels == Sweeps(adjacency, Singletons(nodes), nodes, maxIterations)
    ensures (exists j: nat | j < maxIterations :: IdleSweep(adjacency, Singletons(nodes), nodes, j))
            ==> Settled(adjacency, labels)
  {
    hide *;
    SingletonsReady(adjacency, nodes);
    labels := Singletons(nodes);
    ghost var start := labels;
    NoSweeps(adjacency, start, nodes);
    var round := 0;
    while round < maxIterations
      invariant round <= maxIterations
      invariant labels == Sweeps(adjacency, start, nodes, round)
      invariant forall j: nat | j < round :: !IdleSweep(adjacency, start, nodes, j)
    {
      OneMoreSweep(adjacency, start, nodes, round);
      var next, changed := SweepInPlace(nodes, adjacency, labels);
      if !changed {
        BreakIsFinal(adjacency, start, nodes, round, maxIterations);
        break;
      }
      labels := next;
      round := round + 1;
    }
  }

  lemma NoSweeps(g: Graph, start: Labels, nodes: seq<Name>)
    requires Ready(g, start, nodes)
    ensures Sweeps(g, start, nodes, 0) == start
  {}

  lemma OneMoreSweep(g: Graph, start: Labels, nodes: seq<Name>, k: nat)
    requires Ready(g, start, nodes)
    ensures Ready(g, Sweeps(g, start, nodes, k), nodes)
    ensures Sweeps(g, start, nodes, k + 1) == Sweep(g, Sweeps(g, start, nodes, k), nodes)
    ensures IdleSweep(g, start, nodes, k) <==> Sweeps(g, start, nodes, k + 1) == Sweeps(g, start, nodes, k)
  {}
}
