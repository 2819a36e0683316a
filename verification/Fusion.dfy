/** Reciprocal rank fusion of result lists (apps/retrieval/retrieval_service.py, `_rrf`). */
module Fusion {
  import opened Common

  datatype Id = Id(text: string)

  const K := 60

  class SearchHit {
    const chunkId: Id
    var score: real

    constructor (chunkId: Id, score: real)
      ensures this.chunkId == chunkId && this.score == score
    {
      this.chunkId, this.score := chunkId, score;
    }
  }

  function Ids(hits: seq<SearchHit>): seq<Id> {
    seq(|hits|, i requires 0 <= i < |hits| => hits[i].chunkId)
  }

  function AllIds(sets: seq<seq<SearchHit>>): seq<seq<Id>> {
    seq(|sets|, i requires 0 <= i < |sets| => Ids(sets[i]))
  }

  function Share(rank: nat): real { 1.0 / (K + rank) as real }

  lemma ShareShrinks(i: nat, j: nat)
    requires i < j
    ensures Share(i) > Share(j) > 0.0
  {
    var x, y := (K + i) as real, (K + j) as real;
    assert 0.0 < x < y;
    assert 1.0 / x - 1.0 / y == (y - x) / (x * y);
  }

  /** What one list gives an id: a share for every rank it holds there. */
  function ListScore(list: seq<Id>, id: Id): real {
    if list == [] then 0.0
    else ListScore(list[..|list| - 1], id) + if list[|list| - 1] == id then Share(|list|) else 0.0
  }

  function Score(lists: seq<seq<Id>>, id: Id): real {
    if lists == [] then 0.0 else Score(lists[..|lists| - 1], id) + ListScore(lists[|lists| - 1], id)
  }

  function Concat<T>(lists: seq<seq<T>>): seq<T> {
    if lists == [] then [] else Concat(lists[..|lists| - 1]) + lists[|lists| - 1]
  }

  /** The ids in the order of their first appearance. */
  function FirstSeen(ids: seq<Id>): seq<Id> {
    if ids == [] then []
    else
      var init := FirstSeen(ids[..|ids| - 1]);
      if ids[|ids| - 1] in init then init else init + [ids[|ids| - 1]]
  }

  /** The hit kept for each id is the first with that id. */
  function FirstHits(hits: seq<SearchHit>): seq<SearchHit> {
    if hits == [] then []
    else
      var init, last := FirstHits(hits[..|hits| - 1]), hits[|hits| - 1];
      if last.chunkId in Ids(init) then init else init + [last]
  }

  /** The order of the ranking: an id of higher score goes first. */
  function Higher(score: Id -> real): (Id, Id) -> bool {
    (a, b) => score(b) < score(a)
  }

  function Exact(lists: seq<seq<Id>>): Id -> real { id => Score(lists, id) }

  function Looked(scores: map<Id, real>): Id -> real { id => if id in scores then scores[id] else 0.0 }

  /** The ranking that fusion stands for: each id once, by descending score. */
  function Ranking(lists: seq<seq<Id>>): seq<Id> {
    Sorted(FirstSeen(Concat(lists)), Higher(Exact(lists)))
  }

  // ---------------------------------------------------------------- the ranking

  ghost predicate Descending(ids: seq<Id>, score: Id -> real) {
    forall i, j :: 0 <= i < j < |ids| ==> score(ids[i]) >= score(ids[j])
  }

  lemma SortedShape(ids: seq<Id>, score: Id -> real)
    requires Distinct(ids)
    ensures var r := Sorted(ids, Higher(score));
            Descending(r, score) && Distinct(r) && forall id :: id in r <==> id in ids
  {
    SortedInOrder(ids, Higher(score));
    SortedDistinct(ids, Higher(score));
    hide Sorted;
    var r := Sorted(ids, Higher(score));
    forall i, j | 0 <= i < j < |r| ensures score(r[i]) >= score(r[j]) {
      assert !Higher(score)(r[j], r[i]);
    }
  }

  lemma {:induction false} FirstSeenShape(ids: seq<Id>)
    ensures Distinct(FirstSeen(ids)) && forall id :: id in FirstSeen(ids) <==> id in ids
  {
    if ids != [] {
      FirstSeenShape(ids[..|ids| - 1]);
      assert ids == ids[..|ids| - 1] + [ids[|ids| - 1]];
    }
  }

  ghost predicate Occurs(lists: seq<seq<Id>>, id: Id) {
    exists l :: l in lists && id in l
  }

  lemma {:induction false} ConcatMembers(lists: seq<seq<Id>>, id: Id)
    ensures id in Concat(lists) <==> Occurs(lists, id)
  {
    if lists != [] {
      ConcatMembers(lists[..|lists| - 1], id);
      assert lists == lists[..|lists| - 1] + [lists[|lists| - 1]];
    }
  }

  /** Each id that occurs is ranked once, nothing else is, and scores never increase down the ranking. */
  lemma RankingShape(lists: seq<seq<Id>>)
    ensures Distinct(Ranking(lists)) && forall id :: id in Ranking(lists) <==> Occurs(lists, id)
    ensures forall i, j :: 0 <= i < j < |Ranking(lists)| ==>
              Score(lists, Ranking(lists)[i]) >= Score(lists, Ranking(lists)[j])
  {
    var score := Exact(lists);
    FirstSeenShape(Concat(lists));
    SortedShape(FirstSeen(Concat(lists)), score);
    forall id ensures id in Ranking(lists) <==> Occurs(lists, id) { ConcatMembers(lists, id); }
    forall i, j | 0 <= i < j < |Ranking(lists)|
      ensures Score(lists, Ranking(lists)[i]) >= Score(lists, Ranking(lists)[j])
    {
      assert score(Ranking(lists)[i]) >= score(Ranking(lists)[j]);
    }
  }

  // ---------------------------------------------------------------- the score

  lemma {:induction false} ListScoreSign(list: seq<Id>, id: Id)
    ensures ListScore(list, id) >= 0.0 && (ListScore(list, id) > 0.0 <==> id in list)
  {
    if list != [] {
      hide Share;
      ListScoreSign(list[..|list| - 1], id);
      ShareShrinks(|list|, |list| + 1);
      assert list == list[..|list| - 1] + [list[|list| - 1]];
    }
  }

  lemma {:induction false} ScoreConcat(a: seq<seq<Id>>, b: seq<seq<Id>>, id: Id)
    ensures Score(a + b, id) == Score(a, id) + Score(b, id)
  {
    if b == [] {
      assert a + b == a;
    } else {
      assert (a + b)[..|a + b| - 1] == a + b[..|b| - 1];
      ScoreConcat(a, b[..|b| - 1], id);
    }
  }

  /** Taking a list out takes away what it gives. */
  lemma ScoreWithout(lists: seq<seq<Id>>, i: nat, id: Id)
    requires i < |lists|
    ensures Score(lists, id) == Score(lists[..i] + lists[i + 1..], id) + ListScore(lists[i], id)
  {
    var x := lists[i];
    assert lists == lists[..i] + [x] + lists[i + 1..];
    ScoreConcat(lists[..i], lists[i + 1..], id);
    ScoreConcat(lists[..i] + [x], lists[i + 1..], id);
    assert (lists[..i] + [x])[..i] == lists[..i];
  }

  lemma PermutedWithout<T>(a: seq<T>, b: seq<T>) returns (i: nat)
    requires multiset(a) == multiset(b) && b != []
    ensures i < |a| && a[i] == b[|b| - 1] && multiset(a[..i] + a[i + 1..]) == multiset(b[..|b| - 1])
  {
    var init, x := b[..|b| - 1], b[|b| - 1];
    assert b == init + [x];
    assert x in multiset(a);
    i :| 0 <= i < |a| && a[i] == x;
    assert a == a[..i] + [x] + a[i + 1..];
    assert multiset(a[..i] + a[i + 1..]) == multiset(a) - multiset{x};
    assert multiset(init) == multiset(b) - multiset{x};
  }

  /** The order of the lists makes no difference to any score. */
  lemma {:induction false} ScoreIgnoresListOrder(a: seq<seq<Id>>, b: seq<seq<Id>>, id: Id)
    requires multiset(a) == multiset(b)
    ensures Score(a, id) == Score(b, id)
    decreases |b|
  {
    if b == [] {
      assert a == [] by { assert |multiset(a)| == 0; }
    } else {
      var i := PermutedWithout(a, b);
      ScoreIgnoresListOrder(a[..i] + a[i + 1..], b[..|b| - 1], id);
      ScoreWithout(a, i, id);
    }
  }

  /** A hit adds 1 / (60 + its rank) to the score of its id, with ranks from 1, and nothing to others. */
  lemma OneMoreHit(lists: seq<seq<Id>>, list: seq<Id>, x: Id, id: Id)
    ensures Score([], id) == 0.0
    ensures Score(lists + [[]], id) == Score(lists, id)
    ensures Score(lists + [list + [x]], id)
         == Score(lists + [list], id) + if id == x then 1.0 / (61 + |list|) as real else 0.0
  {
    assert (lists + [[]])[..|lists|] == lists;
    assert (lists + [list])[..|lists|] == lists;
    assert (lists + [list + [x]])[..|lists|] == lists;
    assert (list + [x])[..|list|] == list;
  }

  /** One more list lowers no score, and raises exactly those of the ids in it. */
  lemma AddedListNeverLowers(lists: seq<seq<Id>>, more: seq<Id>, id: Id)
    ensures Score(lists + [more], id) >= Score(lists, id)
    ensures Score(lists + [more], id) > Score(lists, id) <==> id in more
    ensures id in Ranking(lists) ==> id in Ranking(lists + [more])
  {
    assert (lists + [more])[..|lists|] == lists;
    ListScoreSign(more, id);
    RankingShape(lists);
    RankingShape(lists + [more]);
    if Occurs(lists, id) {
      var l :| l in lists && id in l;
      assert l in lists + [more];
    }
  }

  // ---------------------------------------------------------------- dominance

  /** `a` stands before `b` in the list whenever `b` is in it. */
  ghost predicate Above(list: seq<Id>, a: Id, b: Id) {
    b in list ==> exists i, j :: 0 <= i < j < |list| && list[i] == a && list[j] == b
  }

  lemma {:induction false} ListScoreOnce(list: seq<Id>, i: nat)
    requires Distinct(list) && i < |list|
    ensures ListScore(list, list[i]) == Share(i + 1)
  {
    hide Share;
    var init := list[..|list| - 1];
    if i < |init| {
      ListScoreOnce(init, i);
    } else {
      ListScoreSign(init, list[i]);
    }
  }

  lemma AboveScoresMore(list: seq<Id>, a: Id, b: Id)
    requires Distinct(list) && Above(list, a, b)
    ensures ListScore(list, a) >= ListScore(list, b)
    ensures b in list ==> ListScore(list, a) > ListScore(list, b)
  {
    hide Share, ListScore;
    ListScoreSign(list, a);
    ListScoreSign(list, b);
    if b in list {
      var i, j :| 0 <= i < j < |list| && list[i] == a && list[j] == b;
      ListScoreOnce(list, i);
      ListScoreOnce(list, j);
      ShareShrinks(i + 1, j + 1);
    }
  }

  lemma {:induction false} DominantScore(lists: seq<seq<Id>>, a: Id, b: Id)
    requires forall l :: l in lists ==> Distinct(l) && Above(l, a, b)
    ensures Score(lists, a) >= Score(lists, b)
    ensures Occurs(lists, b) ==> Score(lists, a) > Score(lists, b)
  {
    if lists != [] {
      var init, last := lists[..|lists| - 1], lists[|lists| - 1];
      assert lists == init + [last];
      assert last in lists;
      DominantScore(init, a, b);
      AboveScoresMore(last, a, b);
    }
  }

  /** An id that beats another in every list that has the other is ranked above it. */
  lemma DominantRanksAbove(lists: seq<seq<Id>>, a: Id, b: Id) returns (i: nat, j: nat)
    requires forall l :: l in lists ==> Distinct(l) && Above(l, a, b)
    requires Occurs(lists, b)
    ensures i < j < |Ranking(lists)| && Ranking(lists)[i] == a && Ranking(lists)[j] == b
  {
    DominantScore(lists, a, b);
    RankingShape(lists);
    var l :| l in lists && b in l;
    assert Above(l, a, b);
    var p, q :| 0 <= p < q < |l| && l[p] == a && l[q] == b;
    assert a in l;
    assert Occurs(lists, a);
    i :| 0 <= i < |Ranking(lists)| && Ranking(lists)[i] == a;
    j :| 0 <= j < |Ranking(lists)| && Ranking(lists)[j] == b;
  }

  // ---------------------------------------------------------------- the method

  function HigherHit(score: Id -> real): (SearchHit, SearchHit) -> bool {
    (a: SearchHit, b: SearchHit) => score(b.chunkId) < score(a.chunkId)
  }

  lemma IdsOneMore(hits: seq<SearchHit>, h: SearchHit)
    ensures Ids(hits + [h]) == Ids(hits) + [h.chunkId]
  {}

  lemma {:induction false} InsertHitIds(hits: seq<SearchHit>, x: SearchHit, score: Id -> real)
    ensures Ids(Insert(hits, x, HigherHit(score))) == Insert(Ids(hits), x.chunkId, Higher(score))
  {
    if hits != [] {
      var init, last := hits[..|hits| - 1], hits[|hits| - 1];
      assert Ids(hits)[..|hits| - 1] == Ids(init);
      InsertHitIds(init, x, score);
      IdsOneMore(Insert(init, x, HigherHit(score)), last);
    }
    IdsOneMore(hits, x);
  }

  /** Sorting the hits sorts their ids. */
  lemma {:induction false} SortedHitsIds(hits: seq<SearchHit>, score: Id -> real)
    ensures Ids(Sorted(hits, HigherHit(score))) == Sorted(Ids(hits), Higher(score))
  {
    if hits != [] {
      var init, last := hits[..|hits| - 1], hits[|hits| - 1];
      assert Ids(hits)[..|hits| - 1] == Ids(init);
      SortedHitsIds(init, score);
      InsertHitIds(Sorted(init, HigherHit(score)), last, score);
    }
  }

  lemma SameHits(a: seq<SearchHit>, b: seq<SearchHit>, k: nat)
    requires multiset(a) == multiset(b) && k < |a|
    ensures a[k] in b
  {
    assert a[k] in multiset(a);
    assert a[k] in multiset(b);
  }

  lemma {:induction false} FirstHitsIds(hits: seq<SearchHit>)
    ensures Ids(FirstHits(hits)) == FirstSeen(Ids(hits))
    ensures forall h :: h in FirstHits(hits) ==> h in hits
  {
    if hits != [] {
      var init, last := hits[..|hits| - 1], hits[|hits| - 1];
      assert hits == init + [last];
      assert Ids(hits)[..|hits| - 1] == Ids(init);
      FirstHitsIds(init);
      IdsOneMore(FirstHits(init), last);
    }
  }

  /** The scores gathered so far, for the ids seen so far. */
  ghost predicate Gathered(scores: map<Id, real>, lists: seq<seq<Id>>, part: seq<Id>) {
    && (forall id :: id in scores <==> id in FirstSeen(Concat(lists) + part))
    && (forall id :: id in scores ==> scores[id] == Score(lists, id) + ListScore(part, id))
  }

  lemma FirstSeenOneMore(ids: seq<Id>, id: Id)
    ensures FirstSeen(ids + [id]) == if id in FirstSeen(ids) then FirstSeen(ids) else FirstSeen(ids) + [id]
    ensures id in FirstSeen(ids) <==> id in ids
  {
    assert (ids + [id])[..|ids|] == ids;
    FirstSeenShape(ids);
  }

  lemma ListScoreOneMore(part: seq<Id>, x: Id, id: Id)
    ensures ListScore(part + [x], id) == ListScore(part, id) + if x == id then Share(|part| + 1) else 0.0
  {
    assert (part + [x])[..|part|] == part;
  }

  lemma GatherOne(scores: map<Id, real>, lists: seq<seq<Id>>, part: seq<Id>, x: Id)
    requires Gathered(scores, lists, part)
    ensures var before := if x in scores then scores[x] else 0.0;
            Gathered(scores[x := before + Share(|part| + 1)], lists, part + [x])
  {
    hide Share, ListScore, Score, Concat, FirstSeen;
    var all := Concat(lists) + part;
    var before := if x in scores then scores[x] else 0.0;
    var after := scores[x := before + Share(|part| + 1)];
    assert Concat(lists) + (part + [x]) == all + [x];
    FirstSeenOneMore(all, x);
    if x !in scores { UnseenScoresNothing(lists, part, x); }
    forall id | id in after ensures after[id] == Score(lists, id) + ListScore(part + [x], id) {
      ListScoreOneMore(part, x, id);
    }
  }

  lemma UnseenScoresNothing(lists: seq<seq<Id>>, part: seq<Id>, id: Id)
    requires id !in Concat(lists) + part
    ensures Score(lists, id) == 0.0 && ListScore(part, id) == 0.0
  {
    ConcatMembers(lists, id);
    ListScoreSign(part, id);
    UnseenScore(lists, id);
  }

  lemma {:induction false} UnseenScore(lists: seq<seq<Id>>, id: Id)
    requires !Occurs(lists, id)
    ensures Score(lists, id) == 0.0
  {
    if lists != [] {
      var init, last := lists[..|lists| - 1], lists[|lists| - 1];
      assert last in lists && forall l :: l in init ==> l in lists;
      UnseenScore(init, id);
      ListScoreSign(last, id);
    }
  }

  lemma GatherList(scores: map<Id, real>, lists: seq<seq<Id>>, list: seq<Id>)
    requires Gathered(scores, lists, list)
    ensures Gathered(scores, lists + [list], [])
  {
    assert (lists + [list])[..|lists|] == lists;
    assert Concat(lists + [list]) + [] == Concat(lists) + list;
  }

  /** After the first lists and part of the next, the scores and the hits are those of what was seen. */
  ghost predicate SeenSoFar(
    sets: seq<seq<SearchHit>>, part: seq<SearchHit>, scores: map<Id, real>, hits: seq<SearchHit>)
  {
    && Gathered(scores, AllIds(sets), Ids(part))
    && hits == FirstHits(Concat(sets) + part)
    && Ids(Concat(sets)) == Concat(AllIds(sets))
  }

  lemma FirstHitsOneMore(hits: seq<SearchHit>, h: SearchHit)
    ensures FirstHits(hits + [h]) == if h.chunkId in Ids(FirstHits(hits)) then FirstHits(hits) else FirstHits(hits) + [h]
  {
    hide Ids;
    assert (hits + [h])[..|hits|] == hits;
  }

  lemma Appended<T>(a: seq<T>, b: seq<T>, x: T)
    ensures a + (b + [x]) == (a + b) + [x]
  {}

  lemma SeeOne(sets: seq<seq<SearchHit>>, part: seq<SearchHit>, hit: SearchHit, scores: map<Id, real>, hits: seq<SearchHit>)
    requires SeenSoFar(sets, part, scores, hits)
    ensures var before := if hit.chunkId in scores then scores[hit.chunkId] else 0.0;
            SeenSoFar(sets, part + [hit],
                      scores[hit.chunkId := before + Share(|part| + 1)],
                      if hit.chunkId in Ids(hits) then hits else hits + [hit])
  {
    GatherOne(scores, AllIds(sets), Ids(part), hit.chunkId);
    IdsOneMore(part, hit);
    FirstHitsOneMore(Concat(sets) + part, hit);
    Appended(Concat(sets), part, hit);
    assert |Ids(part)| == |part|;
    hide Gathered, Share, FirstHits, Concat, AllIds, Ids;
  }

  lemma SeeList(sets: seq<seq<SearchHit>>, next: seq<SearchHit>, scores: map<Id, real>, hits: seq<SearchHit>)
    requires SeenSoFar(sets, next, scores, hits)
    ensures SeenSoFar(sets + [next], [], scores, hits)
  {
    hide Gathered;
    assert (sets + [next])[..|sets|] == sets;
    var lists := AllIds(sets + [next]);
    assert lists[..|sets|] == AllIds(sets);
    assert lists == AllIds(sets) + [Ids(next)];
    GatherList(scores, AllIds(sets), Ids(next));
    assert Ids(Concat(sets) + next) == Ids(Concat(sets)) + Ids(next);
    assert Ids([]) == [];
    assert Concat(sets + [next]) + [] == Concat(sets) + next;
  }

  /** The inner loop: the shares of one list, by rank from 1, and the hits it is the first to have. */
  method AddList(ghost done: seq<seq<SearchHit>>, list: seq<SearchHit>, before: map<Id, real>, kept: seq<SearchHit>)
    returns (scores: map<Id, real>, hits: seq<SearchHit>)
    requires SeenSoFar(done, [], before, kept)
    ensures SeenSoFar(done + [list], [], scores, hits)
  {
    hide *;
    scores, hits := before, kept;
    for i := 0 to |list|
      invariant SeenSoFar(done, list[..i], scores, hits)
    {
      var hit := list[i];
      SeeOne(done, list[..i], hit, scores, hits);
      assert list[..i + 1] == list[..i] + [hit];
      if hit.chunkId !in Ids(hits) {
        hits := hits + [hit];
      }
      var sofar := if hit.chunkId in scores then scores[hit.chunkId] else 0.0;
      scores := scores[hit.chunkId := sofar + Share(i + 1)];
    }
    assert list[..|list|] == list;
    SeeList(done, list, scores, hits);
  }

  /** The outer loop: every list in turn. */
  method Gather(resultSets: seq<seq<SearchHit>>) returns (scores: map<Id, real>, hits: seq<SearchHit>)
    ensures SeenSoFar(resultSets, [], scores, hits)
  {
    scores, hits := map[], [];
    assert Ids([]) == [] && AllIds([]) == [];
    assert SeenSoFar([], [], scores, hits);
    hide *;
    for i := 0 to |resultSets|
      invariant SeenSoFar(resultSets[..i], [], scores, hits)
    {
      scores, hits := AddList(resultSets[..i], resultSets[i], scores, hits);
      assert resultSets[..i + 1] == resultSets[..i] + [resultSets[i]];
    }
    assert resultSets[..|resultSets|] == resultSets;
  }

  /**
   * Fuses the lists: the hits are ranked as specified, each kept hit is the first with its id and
   * gets the exact score of its id, and no other hit is touched.
   */
  method Fuse(resultSets: seq<seq<SearchHit>>) returns (fused: seq<SearchHit>)
    modifies FirstHits(Concat(resultSets))
    ensures Ids(fused) == Ranking(AllIds(resultSets))
    ensures forall h :: h in fused <==> h in FirstHits(Concat(resultSets))
    ensures forall h :: h in fused ==> h.score == Score(AllIds(resultSets), h.chunkId)
  {
    var scores, hits := Gather(resultSets);
    hide *;
    FinishScores(resultSets, hits, scores);
    for i := 0 to |hits|
      invariant forall k :: 0 <= k < i ==> hits[k].score == scores[hits[k].chunkId]
    {
      hits[i].score := scores[hits[i].chunkId];
    }
    fused := Sorted(hits, HigherHit(Looked(scores)));
    SortedByScore(resultSets, hits, scores);
    SortedPermutes(hits, HigherHit(Looked(scores)));
    forall k | 0 <= k < |fused| ensures fused[k] in hits { SameHits(fused, hits, k); }
    forall k | 0 <= k < |hits| ensures hits[k] in fused { SameHits(hits, fused, k); }
  }

  lemma FinishScores(sets: seq<seq<SearchHit>>, hits: seq<SearchHit>, scores: map<Id, real>)
    requires SeenSoFar(sets, [], scores, hits)
    ensures forall i :: 0 <= i < |hits| ==> hits[i].chunkId in scores
    ensures forall i :: 0 <= i < |hits| ==> scores[hits[i].chunkId] == Score(AllIds(sets), hits[i].chunkId)
    ensures hits == FirstHits(Concat(sets)) && Ids(hits) == FirstSeen(Concat(AllIds(sets)))
  {
    assert Concat(AllIds(sets)) + [] == Concat(AllIds(sets)) && Concat(sets) + [] == Concat(sets);
    assert Ids([]) == [];
    FirstHitsIds(Concat(sets));
    forall i | 0 <= i < |hits| ensures hits[i].chunkId in scores {
      assert Ids(hits)[i] in FirstSeen(Concat(AllIds(sets)));
    }
  }

  lemma SortedByScore(sets: seq<seq<SearchHit>>, hits: seq<SearchHit>, scores: map<Id, real>)
    requires SeenSoFar(sets, [], scores, hits)
    ensures Ids(Sorted(hits, HigherHit(Looked(scores)))) == Ranking(AllIds(sets))
  {
    var lists := AllIds(sets);
    var kept, exact := Looked(scores), Exact(lists);
    FinishScores(sets, hits, scores);
    hide SeenSoFar, FirstHits, Concat, Sorted, FirstSeen, Score;
    SameScoresSortAlike(Ids(hits), kept, exact);
    SortedHitsIds(hits, kept);
  }

  lemma {:induction false} SameScoresSortAlike(ids: seq<Id>, f: Id -> real, g: Id -> real)
    requires forall id :: id in ids ==> f(id) == g(id)
    ensures Sorted(ids, Higher(f)) == Sorted(ids, Higher(g))
    ensures forall id :: id in Sorted(ids, Higher(f)) ==> id in ids
  {
    if ids != [] {
      var init := ids[..|ids| - 1];
      assert ids == init + [ids[|ids| - 1]];
      SameScoresSortAlike(init, f, g);
      SameScoresInsertAlike(Sorted(init, Higher(f)), ids[|ids| - 1], f, g);
    }
  }

  lemma {:induction false} SameScoresInsertAlike(ids: seq<Id>, x: Id, f: Id -> real, g: Id -> real)
    requires f(x) == g(x) && forall id :: id in ids ==> f(id) == g(id)
    ensures Insert(ids, x, Higher(f)) == Insert(ids, x, Higher(g))
    ensures forall id :: id in Insert(ids, x, Higher(f)) ==> id in ids || id == x
  {
    if ids != [] {
      assert ids == ids[..|ids| - 1] + [ids[|ids| - 1]];
      SameScoresInsertAlike(ids[..|ids| - 1], x, f, g);
    }
  }
}
