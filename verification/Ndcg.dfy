/**
 * The ranking score of an evaluation case (apps/eval/retrieval_evaluator.py), over exact reals and
 * for any strictly decreasing positive discount, of which 1 / log2(index + 2) is one.
 */
module Ndcg {
  import opened Common

  type Discount = nat -> real

  ghost predicate Decreasing(d: Discount) {
    && (forall i :: d(i) > 0.0)
    && (forall i, j :: i < j ==> d(i) > d(j))
  }

  function Dcg(flags: seq<bool>, d: Discount): real {
    if flags == [] then 0.0
    else Dcg(flags[..|flags| - 1], d) + if flags[|flags| - 1] then d(|flags| - 1) else 0.0
  }

  /** The gain of `n` relevant hits at the top. */
  function Ideal(n: nat, d: Discount): real {
    if n == 0 then 0.0 else Ideal(n - 1, d) + d(n - 1)
  }

  function Count(flags: seq<bool>): nat {
    if flags == [] then 0 else Count(flags[..|flags| - 1]) + if flags[|flags| - 1] then 1 else 0
  }

  function Score(flags: seq<bool>, total: nat, d: Discount): real {
    if total == 0 then 0.0
    else
      var ideal := Ideal(Min(total, |flags|), d);
      if ideal == 0.0 then 0.0 else Dcg(flags, d) / ideal
  }

  // ---------------------------------------------------------------- sums

  lemma {:induction false} CountBound(flags: seq<bool>)
    ensures Count(flags) <= |flags|
  {
    if flags != [] { CountBound(flags[..|flags| - 1]); }
  }

  lemma {:induction false} IdealGrows(m: nat, n: nat, d: Discount)
    requires Decreasing(d) && m <= n
    ensures Ideal(m, d) <= Ideal(n, d) && (m < n ==> Ideal(m, d) < Ideal(n, d))
  {
    if m < n { IdealGrows(m, n - 1, d); }
  }

  ghost predicate FirstRelevant(flags: seq<bool>, n: nat) {
    n <= |flags| && forall i :: 0 <= i < n ==> flags[i]
  }

  /** No ranking of so many relevant hits gains more than having them at the top, and only that gains as much. */
  lemma {:induction false} TopIsBest(flags: seq<bool>, d: Discount)
    requires Decreasing(d)
    ensures Dcg(flags, d) <= Ideal(Count(flags), d)
    ensures Dcg(flags, d) == Ideal(Count(flags), d) <==> FirstRelevant(flags, Count(flags))
  {
    CountBound(flags);
    if flags != [] {
      var init, n := flags[..|flags| - 1], |flags| - 1;
      TopIsBest(init, d);
      CountBound(init);
      assert forall i :: 0 <= i < n ==> init[i] == flags[i];
      if flags[n] {
        assert Count(init) < n ==> d(n) < d(Count(init));
        if FirstRelevant(flags, Count(flags)) { FirstRelevantCount(flags, n, Count(flags)); }
      }
    }
  }

  /** With `k` relevant hits in all at the top, a relevant hit is among the first `k`. */
  lemma FirstRelevantCount(flags: seq<bool>, at: nat, k: nat)
    requires at < |flags| && flags[at] && k == Count(flags) && FirstRelevant(flags, k)
    ensures at < k
  {
    if at >= k { CountWithTop(flags, k, at); }
  }

  lemma {:induction false} CountWithTop(flags: seq<bool>, k: nat, at: nat)
    requires k <= |flags| && forall i :: 0 <= i < k ==> flags[i]
    ensures Count(flags) >= k
    ensures k <= at < |flags| && flags[at] ==> Count(flags) > k
  {
    if flags != [] {
      var init := flags[..|flags| - 1];
      CountWithTop(init, Min(k, |init|), at);
    }
  }

  // ---------------------------------------------------------------- the score

  /** With no more relevant hits than relevant labels the gain is at most the ideal; it is the ideal only at the top. */
  lemma GainWithinIdeal(flags: seq<bool>, total: nat, d: Discount)
    requires Decreasing(d) && Count(flags) <= total
    ensures Dcg(flags, d) <= Ideal(Min(total, |flags|), d)
    ensures Dcg(flags, d) == Ideal(Min(total, |flags|), d) <==> FirstRelevant(flags, Min(total, |flags|))
  {
    var m := Min(total, |flags|);
    CountBound(flags);
    TopIsBest(flags, d);
    IdealGrows(Count(flags), m, d);
    if FirstRelevant(flags, m) { CountWithTop(flags, m, 0); }
  }

  lemma Quotient(a: real, c: real)
    requires c > 0.0
    ensures (a / c <= 1.0 <==> a <= c) && (a / c == 1.0 <==> a == c) && (a >= 0.0 ==> a / c >= 0.0)
  {
    assert a == a / c * c;
    if a / c > 1.0 { assert a / c * c > c; }
    if a / c < 1.0 { assert a / c * c < c; }
  }

  /** So the score is then between 0 and 1, and 1 exactly for a ranking that leads with relevant hits only. */
  lemma ScoreWithinOne(flags: seq<bool>, total: nat, d: Discount)
    requires Decreasing(d) && Count(flags) <= total && total > 0 && flags != []
    ensures 0.0 <= Score(flags, total, d) <= 1.0
    ensures Score(flags, total, d) == 1.0 <==> FirstRelevant(flags, Min(total, |flags|))
  {
    hide Dcg, Decreasing, Count, FirstRelevant;
    GainWithinIdeal(flags, total, d);
    IdealGrows(0, Min(total, |flags|), d);
    DcgSign(flags, d);
    Quotient(Dcg(flags, d), Ideal(Min(total, |flags|), d));
  }

  lemma {:induction false} DcgSign(flags: seq<bool>, d: Discount)
    requires Decreasing(d)
    ensures Dcg(flags, d) >= 0.0
  {
    if flags != [] { DcgSign(flags[..|flags| - 1], d); }
  }

  /** The hits with the relevant ones first. */
  function RelevantFirst(flags: seq<bool>): seq<bool> {
    if flags == [] then []
    else
      var r := RelevantFirst(flags[..|flags| - 1]);
      if flags[|flags| - 1] then [true] + r else r + [false]
  }

  lemma {:induction false} SortedShape(flags: seq<bool>)
    ensures multiset(RelevantFirst(flags)) == multiset(flags)
    ensures |RelevantFirst(flags)| == |flags| && FirstRelevant(RelevantFirst(flags), Count(flags))
  {
    if flags != [] {
      var init, last := flags[..|flags| - 1], flags[|flags| - 1];
      assert flags == init + [last];
      SortedShape(init);
    }
  }

  lemma {:induction false} CountIsMultiplicity(flags: seq<bool>)
    ensures Count(flags) == multiset(flags)[true]
  {
    if flags != [] {
      assert flags == flags[..|flags| - 1] + [flags[|flags| - 1]];
      CountIsMultiplicity(flags[..|flags| - 1]);
    }
  }

  ghost predicate SomeRankingScoresAboveOne(flags: seq<bool>, total: nat, d: Discount) {
    exists ranking: seq<bool> :: multiset(ranking) == multiset(flags) && Score(ranking, total, d) > 1.0
  }

  /**
   * The score of hits is at most 1 in every order exactly when there are no more relevant hits than
   * relevant labels. Several hits can carry one relevant file path, so the code does not ensure this.
   */
  lemma AtMostOneIff(flags: seq<bool>, total: nat, d: Discount)
    requires Decreasing(d) && total > 0
    ensures Count(flags) <= total <==> !SomeRankingScoresAboveOne(flags, total, d)
  {
    if Count(flags) <= total {
      forall ranking: seq<bool> | multiset(ranking) == multiset(flags) ensures Score(ranking, total, d) <= 1.0 {
        SameCount(flags, ranking);
        hide Decreasing, Count;
        if ranking != [] { ScoreWithinOne(ranking, total, d); }
      }
    } else {
      BestScoresAboveOne(flags, total, d);
    }
  }

  lemma SameCount(a: seq<bool>, b: seq<bool>)
    requires multiset(a) == multiset(b)
    ensures Count(a) == Count(b)
  {
    CountIsMultiplicity(a);
    CountIsMultiplicity(b);
  }

  lemma BestScoresAboveOne(flags: seq<bool>, total: nat, d: Discount)
    requires Decreasing(d) && 0 < total < Count(flags)
    ensures multiset(RelevantFirst(flags)) == multiset(flags) && Score(RelevantFirst(flags), total, d) > 1.0
  {
    var best := RelevantFirst(flags);
    SortedShape(flags);
    SameCount(flags, best);
    CountBound(flags);
    hide Decreasing, Count, RelevantFirst, Dcg, FirstRelevant;
    TopIsBest(best, d);
    IdealGrows(total, Count(flags), d);
    IdealGrows(0, total, d);
    Quotient(Dcg(best, d), Ideal(total, d));
  }

  // ---------------------------------------------------------------- moving a hit up

  lemma {:induction false} DcgUpdate(flags: seq<bool>, i: nat, b: bool, d: Discount)
    requires i < |flags|
    ensures Dcg(flags[i := b], d)
         == Dcg(flags, d) - (if flags[i] then d(i) else 0.0) + (if b then d(i) else 0.0)
  {
    var n := |flags| - 1;
    if i < n {
      assert flags[i := b][..n] == flags[..n][i := b];
      DcgUpdate(flags[..n], i, b, d);
    } else {
      assert flags[i := b][..n] == flags[..n];
    }
  }

  /** Moving a relevant hit above an irrelevant one strictly raises the score. */
  lemma MovingUpRaisesScore(flags: seq<bool>, i: nat, j: nat, total: nat, d: Discount)
    requires Decreasing(d) && total > 0 && i < j < |flags| && !flags[i] && flags[j]
    ensures Score(flags[i := true][j := false], total, d) > Score(flags, total, d)
  {
    DcgUpdate(flags, i, true, d);
    DcgUpdate(flags[i := true], j, false, d);
    var ideal := Ideal(Min(total, |flags|), d);
    IdealGrows(0, Min(total, |flags|), d);
    LargerOver(Dcg(flags, d), Dcg(flags[i := true][j := false], d), ideal);
  }

  lemma LargerOver(a: real, b: real, c: real)
    requires a < b && c > 0.0
    ensures a / c < b / c
  {
    assert b / c - a / c == (b - a) / c;
  }

  // ---------------------------------------------------------------- hits and labels

  datatype Label = Label(text: string)

  datatype Hit = Hit(chunkId: Label, filePath: Label, symbolFqn: Option<Label>)

  function Labels(hit: Hit): set<Label> {
    {hit.chunkId, hit.filePath, if hit.symbolFqn.Some? then hit.symbolFqn.value else Label("")}
  }

  predicate IsRelevant(hit: Hit, relevant: set<Label>) { relevant * Labels(hit) != {} }

  /** A hit is relevant by its chunk id, its file path or its FQN; a missing FQN counts as the empty text. */
  lemma RelevantIff(hit: Hit, relevant: set<Label>)
    ensures IsRelevant(hit, relevant) <==>
              || hit.chunkId in relevant || hit.filePath in relevant
              || (match hit.symbolFqn case Some(fqn) => fqn in relevant case None => Label("") in relevant)
  {
    var labels := relevant * Labels(hit);
    assert forall x :: x in labels <==> x in relevant && x in Labels(hit);
    if x :| x in labels { assert x in Labels(hit); }
    assert hit.chunkId in relevant ==> hit.chunkId in labels;
    assert hit.filePath in relevant ==> hit.filePath in labels;
  }

  function Flags(hits: seq<Hit>, relevant: set<Label>): seq<bool> {
    if hits == [] then [] else Flags(hits[..|hits| - 1], relevant) + [IsRelevant(hits[|hits| - 1], relevant)]
  }

  /** No relevant label is matched by two hits. */
  ghost predicate MatchedOnce(hits: seq<Hit>, relevant: set<Label>) {
    forall i, j :: 0 <= i < j < |hits| ==> relevant * Labels(hits[i]) * Labels(hits[j]) == {}
  }

  lemma NewLabel(hits: seq<Hit>, relevant: set<Label>, used: set<Label>) returns (x: Label)
    requires hits != [] && MatchedOnce(hits, relevant) && IsRelevant(hits[|hits| - 1], relevant)
    requires forall u :: u in used ==> exists i :: 0 <= i < |hits| - 1 && u in Labels(hits[i])
    ensures x in relevant && x in Labels(hits[|hits| - 1]) && x !in used
  {
    x :| x in relevant * Labels(hits[|hits| - 1]);
    hide Labels;
    forall i | 0 <= i < |hits| - 1 ensures x !in Labels(hits[i]) {
      assert relevant * Labels(hits[i]) * Labels(hits[|hits| - 1]) == {};
      assert x !in relevant * Labels(hits[i]) * Labels(hits[|hits| - 1]);
    }
  }

  /** Then there are no more relevant hits than labels: each takes a label of its own. */
  lemma {:induction false} MatchedOnceCount(hits: seq<Hit>, relevant: set<Label>) returns (used: set<Label>)
    requires MatchedOnce(hits, relevant)
    ensures used <= relevant && Count(Flags(hits, relevant)) == |used| <= |relevant|
    ensures forall x :: x in used ==> exists i :: 0 <= i < |hits| && x in Labels(hits[i])
  {
    used := {};
    if hits != [] {
      var init, last := hits[..|hits| - 1], hits[|hits| - 1];
      used := MatchedOnceCount(init, relevant);
      hide Labels, IsRelevant;
      var flags := Flags(hits, relevant);
      assert flags[..|flags| - 1] == Flags(init, relevant);
      if IsRelevant(last, relevant) {
        var x := NewLabel(hits, relevant, used);
        used := used + {x};
      }
    }
    SubsetCard(used, relevant);
  }

  /** The nDCG of a case: the first `k` hits against the relevant labels. */
  function CaseScore(hits: seq<Hit>, relevant: set<Label>, k: nat, d: Discount): real {
    Score(Flags(hits[..Min(k, |hits|)], relevant), |relevant|, d)
  }

  lemma MatchedOnceScoresWithinOne(hits: seq<Hit>, relevant: set<Label>, k: nat, d: Discount)
    requires Decreasing(d) && MatchedOnce(hits, relevant)
    ensures 0.0 <= CaseScore(hits, relevant, k, d) <= 1.0
  {
    var ranked := hits[..Min(k, |hits|)];
    assert MatchedOnce(ranked, relevant);
    var _ := MatchedOnceCount(ranked, relevant);
    hide MatchedOnce, Flags, Decreasing;
    var flags := Flags(ranked, relevant);
    if |relevant| > 0 && flags != [] { ScoreWithinOne(flags, |relevant|, d); }
  }

  lemma TwoFlags(file: Label, a: Hit, b: Hit)
    requires a.filePath == file && b.filePath == file
    ensures Flags([a, b], {file}) == [true, true]
  {
    assert [a, b][..1] == [a] && [a][..0] == [];
    assert file in {file} * Labels(a) && file in {file} * Labels(b);
    assert Flags([a], {file}) == Flags([], {file}) + [true] == [true];
    assert Flags([a, b], {file}) == Flags([a], {file}) + [true];
  }

  lemma TwoGains(d: Discount)
    ensures Dcg([true, true], d) == d(0) + d(1) && Ideal(1, d) == d(0)
  {
    assert [true, true][..1] == [true] && [true][..0] == [];
    assert Dcg([true], d) == d(0) && Ideal(0, d) == 0.0;
  }

  /** Two chunks of the one relevant file score more than 1. */
  lemma TwoChunksOfOneFile(file: Label, a: Hit, b: Hit, d: Discount)
    requires Decreasing(d) && a.filePath == file && b.filePath == file
    ensures CaseScore([a, b], {file}, 10, d) > 1.0
  {
    assert d(0) > 0.0 && d(1) > 0.0;
    assert [a, b][..2] == [a, b];
    TwoFlags(file, a, b);
    TwoGains(d);
    hide Decreasing, Flags, Dcg, Ideal;
    Quotient(d(0) + d(1), d(0));
  }
}
