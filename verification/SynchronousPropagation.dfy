/**
 * What the update in place is for. The documentation of the detector calls the propagation
 * synchronous, but the code overwrites labels during a sweep (apps/communities/community_detector.py).
 * A synchronous update, which computes all new labels from the old ones, would not settle.
 */
module SynchronousPropagation {
  import opened LabelPropagation

  ghost function Choice(g: Graph, labels: Labels, u: Name): (l: Name)
    requires Undirected(g) && Labelling(g, labels) && u in g
    ensures l in g
  {
    assert NamesNode(g, Step(g, labels, u), u);
    Step(g, labels, u)[u]
  }

  /** All nodes at once choose from the labels of the round before. */
  ghost function Round(g: Graph, labels: Labels): (r: Labels)
    requires Undirected(g) && Labelling(g, labels)
    ensures Labelling(g, r)
  {
    hide Undirected, Choice;
    map u | u in g :: Choice(g, labels, u)
  }

  ghost function Rounds(g: Graph, labels: Labels, k: nat): (r: Labels)
    requires Undirected(g) && Labelling(g, labels)
    ensures Labelling(g, r)
  {
    if k == 0 then labels else Round(g, Rounds(g, labels, k - 1))
  }

  /** Two symbols with one edge between them. */
  function Pair(a: Name, b: Name): Graph {
    map[a := {b}, b := {a}]
  }

  lemma PairIsGraph(a: Name, b: Name)
    requires a != b
    ensures Undirected(Pair(a, b)) && Neighbours(Pair(a, b), a) == {b} && Neighbours(Pair(a, b), b) == {a}
  {}

  lemma OnlyNeighbour(labels: Labels, v: Name)
    requires v in labels
    ensures Best(labels, {v}) == labels[v]
  {}

  lemma PairChoice(a: Name, b: Name, labels: Labels)
    requires a != b && Undirected(Pair(a, b)) && Labelling(Pair(a, b), labels)
    ensures Choice(Pair(a, b), labels, a) == labels[b] && Choice(Pair(a, b), labels, b) == labels[a]
  {
    PairIsGraph(a, b);
    OnlyNeighbour(labels, a);
    OnlyNeighbour(labels, b);
  }

  predicate Labelled(labels: Labels, a: Name, la: Name, b: Name, lb: Name) {
    a in labels && labels[a] == la && b in labels && labels[b] == lb
  }

  /** The two nodes swap their labels in every round. */
  lemma PairSwaps(a: Name, b: Name, labels: Labels, la: Name, lb: Name)
    requires a != b && Undirected(Pair(a, b)) && Labelling(Pair(a, b), labels) && Labelled(labels, a, la, b, lb)
    ensures Labelled(Round(Pair(a, b), labels), a, lb, b, la)
  {
    PairChoice(a, b, labels);
    assert a in Pair(a, b) && b in Pair(a, b);
    hide Choice, Undirected, Labelling, Pair;
  }

  /** The labels after `k` synchronous rounds, starting from each symbol on its own. */
  lemma {:induction false} PairAfterRounds(a: Name, b: Name, start: Labels, k: nat)
    requires a != b && Undirected(Pair(a, b)) && Labelling(Pair(a, b), start) && Labelled(start, a, a, b, b)
    ensures var labels := Rounds(Pair(a, b), start, k);
            if k % 2 == 0 then Labelled(labels, a, a, b, b) else Labelled(labels, a, b, b, a)
  {
    hide Undirected, Labelling, Pair, Round;
    if k > 0 {
      PairAfterRounds(a, b, start, k - 1);
      var before := Rounds(Pair(a, b), start, k - 1);
      PairSwaps(a, b, before, before[a], before[b]);
    }
  }

  /** So the synchronous update never settles on them, however many rounds it is given. */
  lemma SynchronousNeverSettles(a: Name, b: Name, start: Labels, k: nat)
    requires a != b && Undirected(Pair(a, b)) && Labelling(Pair(a, b), start) && Labelled(start, a, a, b, b)
    ensures Rounds(Pair(a, b), start, k + 1) != Rounds(Pair(a, b), start, k)
  {
    hide Undirected, Labelling, Pair, Rounds;
    PairAfterRounds(a, b, start, k);
    PairAfterRounds(a, b, start, k + 1);
  }

  /** The sweep in place joins them in its first round and has then settled. */
  lemma InPlaceSettlesAtOnce(a: Name, b: Name)
    requires a != b
    ensures Undirected(Pair(a, b)) && Ready(Pair(a, b), Singletons([a, b]), [a, b])
    ensures var labels := Sweep(Pair(a, b), Singletons([a, b]), [a, b]);
            Labelled(labels, a, b, b, b) && Settled(Pair(a, b), labels)
  {
    var g, start := Pair(a, b), Singletons([a, b]);
    PairIsGraph(a, b);
    SingletonsReady(g, [a, b]);
    OnlyNeighbour(start, b);
    assert [a, b][..1] == [a] && [a][..0] == [];
    var first := Step(g, start, a);
    assert Sweep(g, start, [a]) == first && Labelled(first, a, b, b, b);
    OnlyNeighbour(first, a);
    OnlyNeighbour(first, b);
    assert first[b := b] == first;
    assert Sweep(g, start, [a, b]) == first;
  }
}
