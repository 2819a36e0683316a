/**
 * The cache of query embeddings with a time to live and least-recently-used eviction
 * (apps/retrieval/retrieval_service.py, `_cached_query_embedding`).
 */
module QueryCache {
  import opened Common

  datatype Query = Query(text: string)
  type Embedding = seq<real>

  datatype Cached = Cached(expires: real, value: Embedding)

  /** An ordered dictionary: its keys from the least to the most recently used, and their entries. */
  datatype Cache = Cache(order: seq<Query>, table: map<Query, Cached>)

  /** The rest of the queries, in their order. */
  function Remove(order: seq<Query>, q: Query): seq<Query> {
    if order == [] then []
    else Remove(order[..|order| - 1], q) + if order[|order| - 1] == q then [] else [order[|order| - 1]]
  }

  function Touch(order: seq<Query>, q: Query): seq<Query> { Remove(order, q) + [q] }

  /** The last `n` of a sequence, or all of it. */
  function Trim(s: seq<Query>, n: nat): seq<Query> {
    if |s| <= n then s else s[|s| - n..]
  }

  /** The first critical section: a fresh entry is used and moved to the end, an expired one is dropped. */
  function LookUp(c: Cache, q: Query, now: real): (Option<Embedding>, Cache) {
    if q !in c.table then (None, c)
    else if c.table[q].expires > now then (Some(c.table[q].value), Cache(Touch(c.order, q), c.table))
    else (None, Cache(Remove(c.order, q), c.table - {q}))
  }

  function Evict(c: Cache, max: nat): Cache
    decreases |c.order|
  {
    if |c.order| <= max then c else Evict(Cache(c.order[1..], c.table - {c.order[0]}), max)
  }

  /** The second critical section: the entry goes to the end, and the oldest ones are evicted. */
  function Store(c: Cache, q: Query, entry: Cached, max: nat): Cache {
    Evict(Cache(Touch(c.order, q), c.table[q := entry]), max)
  }

  function Answer(c: Cache, q: Query, now: real, ttl: real, max: nat, value: Embedding): (Embedding, Cache) {
    var (hit, after) := LookUp(c, q, now);
    match hit
    case Some(v) => (v, after)
    case None => (value, Store(after, q, Cached(now + ttl, value), max))
  }

  ghost predicate Valid(c: Cache, embed: Query -> Embedding) {
    && Distinct(c.order)
    && (forall q :: q in c.order <==> q in c.table)
    && (forall q :: q in c.table ==> c.table[q].value == embed(q))
  }

  // ---------------------------------------------------------------- sequences of queries

  lemma {:induction false} RemoveConcat(a: seq<Query>, b: seq<Query>, q: Query)
    ensures Remove(a + b, q) == Remove(a, q) + Remove(b, q)
  {
    if b == [] {
      assert a + b == a;
    } else {
      assert (a + b)[..|a + b| - 1] == a + b[..|b| - 1];
      RemoveConcat(a, b[..|b| - 1], q);
    }
  }

  lemma {:induction false} RemoveMembers(s: seq<Query>, q: Query)
    ensures forall p :: p in Remove(s, q) <==> p in s && p != q
    ensures q !in s ==> Remove(s, q) == s
  {
    if s != [] {
      RemoveMembers(s[..|s| - 1], q);
      assert s == s[..|s| - 1] + [s[|s| - 1]];
    }
  }

  lemma DistinctOneMore(s: seq<Query>, q: Query)
    requires Distinct(s) && q !in s
    ensures Distinct(s + [q])
  {}

  lemma {:induction false} RemoveDistinct(s: seq<Query>, q: Query)
    requires Distinct(s)
    ensures Distinct(Remove(s, q)) && |Remove(s, q)| == |s| - if q in s then 1 else 0
  {
    if s != [] {
      var init, last := s[..|s| - 1], s[|s| - 1];
      assert s == init + [last] && last !in init && Distinct(init);
      RemoveDistinct(init, q);
      RemoveMembers(init, q);
      hide Distinct;
      if last != q { DistinctOneMore(Remove(init, q), last); }
    }
  }

  lemma TouchDistinct(s: seq<Query>, q: Query)
    requires Distinct(s)
    ensures Distinct(Touch(s, q)) && forall p :: p in Touch(s, q) <==> p in s || p == q
  {
    RemoveDistinct(s, q);
    RemoveMembers(s, q);
  }

  lemma TrimOfEnd(a: seq<Query>, b: seq<Query>, n: nat)
    requires n <= |b|
    ensures Trim(a + b, n) == Trim(b, n)
  {}

  lemma EndDistinct(a: seq<Query>, b: seq<Query>)
    requires Distinct(a + b)
    ensures Distinct(b)
  {
    forall i, j | 0 <= i < j < |b| ensures b[i] != b[j] { assert (a + b)[|a| + i] != (a + b)[|a| + j]; }
  }

  /** Trimming before a touch makes no difference to what is kept after it. */
  lemma TrimThenTouch(s: seq<Query>, q: Query, n: nat)
    requires Distinct(s) && n > 0
    ensures Trim(Touch(Trim(s, n), q), n) == Trim(Touch(s, q), n)
  {
    if |s| > n {
      var a, t := s[..|s| - n], s[|s| - n..];
      assert s == a + t && Trim(s, n) == t;
      EndDistinct(a, t);
      RemoveConcat(a, t, q);
      RemoveDistinct(t, q);
      assert Touch(s, q) == Remove(a, q) + Touch(t, q);
      TrimOfEnd(Remove(a, q), Touch(t, q), n);
    }
  }

  // ---------------------------------------------------------------- one call

  lemma EvictOne(c: Cache, embed: Query -> Embedding)
    requires Valid(c, embed) && c.order != []
    ensures Valid(Cache(c.order[1..], c.table - {c.order[0]}), embed)
  {
    assert c.order == [c.order[0]] + c.order[1..];
  }

  lemma {:induction false} EvictTrims(c: Cache, max: nat, embed: Query -> Embedding)
    requires Valid(c, embed)
    ensures Valid(Evict(c, max), embed) && Evict(c, max).order == Trim(c.order, max)
    decreases |c.order|
  {
    hide Valid;
    if |c.order| > max {
      EvictOne(c, embed);
      EvictTrims(Cache(c.order[1..], c.table - {c.order[0]}), max, embed);
    }
  }

  lemma LookUpKeepsValid(c: Cache, q: Query, now: real, embed: Query -> Embedding)
    requires Valid(c, embed)
    ensures var (hit, after) := LookUp(c, q, now);
            && Valid(after, embed) && |after.order| <= |c.order|
            && (hit.Some? ==> hit.value == embed(q) && after.order == Touch(c.order, q))
            && (hit.None? ==> Touch(after.order, q) == Touch(c.order, q))
  {
    TouchDistinct(c.order, q);
    RemoveDistinct(c.order, q);
    RemoveMembers(c.order, q);
    RemoveMembers(Remove(c.order, q), q);
  }

  lemma StoreKeepsValid(c: Cache, q: Query, expires: real, max: nat, embed: Query -> Embedding)
    requires Valid(c, embed)
    ensures var after := Store(c, q, Cached(expires, embed(q)), max);
            Valid(after, embed) && after.order == Trim(Touch(c.order, q), max)
  {
    TouchDistinct(c.order, q);
    EvictTrims(Cache(Touch(c.order, q), c.table[q := Cached(expires, embed(q))]), max, embed);
  }

  /** Hit, expired or miss: the answer is the embedding, and the key order moves in the same way. */
  lemma AnswerIsTouchThenTrim(c: Cache, q: Query, now: real, ttl: real, max: nat, embed: Query -> Embedding)
    requires Valid(c, embed) && |c.order| <= max && max > 0
    ensures var (value, after) := Answer(c, q, now, ttl, max, embed(q));
            value == embed(q) && Valid(after, embed) && after.order == Trim(Touch(c.order, q), max)
  {
    LookUpKeepsValid(c, q, now, embed);
    var (hit, after) := LookUp(c, q, now);
    StoreKeepsValid(after, q, now + ttl, max, embed);
  }

  class EmbeddingCache {
    const ttl: real
    const maxEntries: int
    const embed: Query -> Embedding
    var order: seq<Query>
    var table: map<Query, Cached>

    ghost function Contents(): Cache
      reads this
    {
      Cache(order, table)
    }

    constructor (ttl: real, maxEntries: int, embed: Query -> Embedding)
      ensures this.ttl == ttl && this.maxEntries == maxEntries && this.embed == embed
      ensures Contents() == Cache([], map[]) && Valid(Contents(), embed)
    {
      this.ttl, this.maxEntries, this.embed := ttl, maxEntries, embed;
      order, table := [], map[];
    }

    /** Answers from the cache or embeds and stores; without a positive ttl and size the cache is not touched. */
    method CachedQueryEmbedding(query: Query, now: real) returns (result: Embedding)
      requires Valid(Contents(), embed) && |order| <= Max(0, maxEntries)
      modifies this
      ensures Valid(Contents(), embed) && |order| <= Max(0, maxEntries)
      ensures result == embed(query)
      ensures ttl > 0.0 && maxEntries > 0 ==>
                (result, Contents()) == Answer(old(Contents()), query, now, ttl, maxEntries, embed(query))
      ensures !(ttl > 0.0 && maxEntries > 0) ==> Contents() == old(Contents())
    {
      var caching := ttl > 0.0 && maxEntries > 0;
      if caching {
        AnswerIsTouchThenTrim(Contents(), query, now, ttl, maxEntries, embed);
        if query in table {
          var cached := table[query];
          if cached.expires > now {
            order := Touch(order, query);
            return cached.value;
          }
          order, table := Remove(order, query), table - {query};
        }
      }
      result := embed(query);
      if caching {
        table := table[query := Cached(now + ttl, result)];
        order := Touch(order, query);
        while |order| > maxEntries
          invariant Evict(Contents(), maxEntries) == Answer(old(Contents()), query, now, ttl, maxEntries, result).1
        {
          order, table := order[1..], table - {order[0]};
        }
      }
    }
  }

  // ---------------------------------------------------------------- runs of one thread

  datatype Call = Call(query: Query, now: real)

  function Run(calls: seq<Call>, ttl: real, max: nat, embed: Query -> Embedding): Cache {
    if calls == [] then Cache([], map[])
    else
      var call := calls[|calls| - 1];
      Answer(Run(calls[..|calls| - 1], ttl, max, embed), call.query, call.now, ttl, max, embed(call.query)).1
  }

  /** The distinct queries of a run, the most recently asked last. */
  function Recency(calls: seq<Call>): seq<Query> {
    if calls == [] then [] else Touch(Recency(calls[..|calls| - 1]), calls[|calls| - 1].query)
  }

  lemma {:induction false} RecencyDistinct(calls: seq<Call>)
    ensures Distinct(Recency(calls))
  {
    if calls != [] {
      RecencyDistinct(calls[..|calls| - 1]);
      TouchDistinct(Recency(calls[..|calls| - 1]), calls[|calls| - 1].query);
    }
  }

  /** Whatever the times and the time to live, the cached keys are the last `max` distinct queries. */
  lemma {:induction false} CacheIsLastDistinct(calls: seq<Call>, ttl: real, max: nat, embed: Query -> Embedding)
    requires max > 0
    ensures var c := Run(calls, ttl, max, embed); Valid(c, embed) && c.order == Trim(Recency(calls), max)
  {
    if calls != [] {
      var init, call := calls[..|calls| - 1], calls[|calls| - 1];
      CacheIsLastDistinct(init, ttl, max, embed);
      AnswerIsTouchThenTrim(Run(init, ttl, max, embed), call.query, call.now, ttl, max, embed);
      RecencyDistinct(init);
      TrimThenTouch(Recency(init), call.query, max);
    }
  }

  lemma TrimTwice(s: seq<Query>, small: nat, large: nat)
    requires small <= large
    ensures Trim(Trim(s, large), small) == Trim(s, small)
  {}

  /** The keys of a cache are the most recent ones of a larger cache, in the same order. */
  lemma LargerCacheContainsSmaller(calls: seq<Call>, ttl: real, small: nat, large: nat, embed: Query -> Embedding)
    requires 0 < small <= large
    ensures Run(calls, ttl, small, embed).order == Trim(Run(calls, ttl, large, embed).order, small)
  {
    hide *;
    CacheIsLastDistinct(calls, ttl, small, embed);
    CacheIsLastDistinct(calls, ttl, large, embed);
    TrimTwice(Recency(calls), small, large);
  }

  // ---------------------------------------------------------------- recency, said without the cache

  /** The queries asked after the last time `q` was. */
  function Later(s: seq<Query>, q: Query): set<Query> {
    if s == [] || s[|s| - 1] == q then {} else Later(s[..|s| - 1], q) + {s[|s| - 1]}
  }

  function Queries(calls: seq<Call>): seq<Query> {
    if calls == [] then [] else Queries(calls[..|calls| - 1]) + [calls[|calls| - 1].query]
  }

  lemma {:induction false} LaterWithout(s: seq<Query>, z: Query, q: Query)
    requires q != z
    ensures Later(Remove(s, z), q) == Later(s, q) - {z}
  {
    if s != [] {
      var init, last := s[..|s| - 1], s[|s| - 1];
      LaterWithout(init, z, q);
      if last == z {
        assert Remove(s, z) == Remove(init, z);
      } else {
        assert Remove(s, z)[..|Remove(s, z)| - 1] == Remove(init, z);
      }
    }
  }

  lemma LaterOneMore(s: seq<Query>, z: Query, q: Query)
    ensures Later(s + [z], q) == if q == z then {} else Later(s, q) + {z}
  {
    assert (s + [z])[..|s|] == s;
  }

  lemma {:induction false} RecencyKeepsLater(calls: seq<Call>, q: Query)
    ensures q in Recency(calls) <==> q in Queries(calls)
    ensures q in Queries(calls) ==> Later(Recency(calls), q) == Later(Queries(calls), q)
  {
    if calls != [] {
      var init, z := calls[..|calls| - 1], calls[|calls| - 1].query;
      RecencyKeepsLater(init, q);
      RemoveMembers(Recency(init), z);
      hide Remove, Later;
      LaterOneMore(Remove(Recency(init), z), z, q);
      LaterOneMore(Queries(init), z, q);
      if q != z { LaterWithout(Recency(init), z, q); }
    }
  }

  lemma {:induction false} LaterAreMembers(s: seq<Query>, q: Query)
    ensures forall p :: p in Later(s, q) ==> p in s
  {
    if s != [] { LaterAreMembers(s[..|s| - 1], q); }
  }

  lemma TrimOneMore(init: seq<Query>, last: Query, n: nat)
    requires n > 0
    ensures Trim(init + [last], n) == Trim(init, n - 1) + [last]
  {}

  lemma {:induction false} InTrimIff(s: seq<Query>, q: Query, n: nat)
    requires Distinct(s) && q in s
    ensures q in Trim(s, n) <==> |Later(s, q)| < n
  {
    var init, last := s[..|s| - 1], s[|s| - 1];
    assert s == init + [last];
    if n == 0 {
      assert Trim(s, 0) == [];
    } else {
      TrimOneMore(init, last, n);
      hide Trim;
      if q != last {
        InTrimIff(init, q, n - 1);
        LaterAreMembers(init, q);
        assert last !in Later(init, q);
      }
    }
  }

  /** Fewer than `max` distinct others were asked since the query was. */
  predicate Held(calls: seq<Call>, max: nat, q: Query) {
    q in Queries(calls) && |Later(Queries(calls), q)| < max
  }

  /** A query is cached exactly when fewer than `max` distinct others were asked since it was last asked. */
  lemma CachedIff(calls: seq<Call>, ttl: real, max: nat, embed: Query -> Embedding, q: Query)
    requires max > 0
    ensures q in Run(calls, ttl, max, embed).order <==> Held(calls, max, q)
  {
    CacheIsLastDistinct(calls, ttl, max, embed);
    RecencyDistinct(calls);
    RecencyKeepsLater(calls, q);
    if q in Recency(calls) { InTrimIff(Recency(calls), q, max); }
  }

  // ---------------------------------------------------------------- hits, said without the cache

  /**
   * When the entry of the query runs out: calls of other queries do not matter, a call that hits
   * keeps the time, and any other call sets it anew.
   */
  function Expiry(calls: seq<Call>, ttl: real, max: nat, q: Query): real {
    if calls == [] then 0.0
    else
      var init, c := calls[..|calls| - 1], calls[|calls| - 1];
      if c.query != q || (Held(init, max, q) && Expiry(init, ttl, max, q) > c.now) then Expiry(init, ttl, max, q)
      else c.now + ttl
  }

  lemma {:induction false} EvictKeepsEntries(c: Cache, max: nat, q: Query)
    requires q in Evict(c, max).table
    ensures q in c.table && Evict(c, max).table[q] == c.table[q]
    decreases |c.order|
  {
    if |c.order| > max { EvictKeepsEntries(Cache(c.order[1..], c.table - {c.order[0]}), max, q); }
  }

  /** What a call does to the entry of a query, if that has one afterwards. */
  lemma AnswerEntry(c: Cache, p: Query, now: real, ttl: real, max: nat, value: Embedding, q: Query)
    requires q in Answer(c, p, now, ttl, max, value).1.table
    ensures var expires := Answer(c, p, now, ttl, max, value).1.table[q].expires;
            if p != q || (q in c.table && c.table[q].expires > now) then q in c.table && expires == c.table[q].expires
            else expires == now + ttl
  {
    var (hit, after) := LookUp(c, p, now);
    if hit.None? {
      EvictKeepsEntries(Cache(Touch(after.order, p), after.table[p := Cached(now + ttl, value)]), max, q);
    }
  }

  lemma HeldIffStored(calls: seq<Call>, ttl: real, max: nat, embed: Query -> Embedding, q: Query)
    requires max > 0
    ensures q in Run(calls, ttl, max, embed).table <==> Held(calls, max, q)
  {
    CachedIff(calls, ttl, max, embed, q);
    CacheIsLastDistinct(calls, ttl, max, embed);
  }

  lemma {:induction false} StoredExpiry(calls: seq<Call>, ttl: real, max: nat, embed: Query -> Embedding, q: Query)
    requires max > 0 && q in Run(calls, ttl, max, embed).table
    ensures Run(calls, ttl, max, embed).table[q].expires == Expiry(calls, ttl, max, q)
  {
    hide Held, Answer;
    var init, c := calls[..|calls| - 1], calls[|calls| - 1];
    var before := Run(init, ttl, max, embed);
    AnswerEntry(before, c.query, c.now, ttl, max, embed(c.query), q);
    HeldIffStored(init, ttl, max, embed, q);
    if q in before.table { StoredExpiry(init, ttl, max, embed, q); }
  }

  /** A query is answered from the cache exactly if it is held and its entry has not run out. */
  lemma HitIff(calls: seq<Call>, ttl: real, max: nat, embed: Query -> Embedding, q: Query, now: real)
    requires max > 0
    ensures LookUp(Run(calls, ttl, max, embed), q, now).0.Some?
       <==> Held(calls, max, q) && Expiry(calls, ttl, max, q) > now
  {
    HeldIffStored(calls, ttl, max, embed, q);
    if Held(calls, max, q) { StoredExpiry(calls, ttl, max, embed, q); }
  }

  /**
   * Exactly when a smaller cache hits and a larger one misses: the smaller holds the query, and
   * only the entry of the larger has run out.
   */
  lemma LargerMissesIff(
    calls: seq<Call>, ttl: real, small: nat, large: nat, embed: Query -> Embedding, q: Query, now: real)
    requires 0 < small <= large
    ensures && LookUp(Run(calls, ttl, small, embed), q, now).0.Some?
            && LookUp(Run(calls, ttl, large, embed), q, now).0.None?
       <==> Held(calls, small, q) && Expiry(calls, ttl, large, q) <= now < Expiry(calls, ttl, small, q)
  {
    HitIff(calls, ttl, small, embed, q, now);
    HitIff(calls, ttl, large, embed, q, now);
  }

  /** Some call of the query came when only the larger cache still held it. */
  predicate AskedWhenEvicted(calls: seq<Call>, small: nat, large: nat, q: Query) {
    calls != [] &&
    var init, c := calls[..|calls| - 1], calls[|calls| - 1];
    AskedWhenEvicted(init, small, large, q)
    || (c.query == q && Held(init, large, q) && !Held(init, small, q))
  }

  lemma {:induction false} SameExpiry(calls: seq<Call>, ttl: real, small: nat, large: nat, q: Query)
    requires small <= large && !AskedWhenEvicted(calls, small, large, q)
    ensures Expiry(calls, ttl, small, q) == Expiry(calls, ttl, large, q)
  {
    if calls != [] { SameExpiry(calls[..|calls| - 1], ttl, small, large, q); }
  }

  /** Without such a call the hits nest as the keys do. */
  lemma HitsNestUnlessEvicted(
    calls: seq<Call>, ttl: real, small: nat, large: nat, embed: Query -> Embedding, q: Query, now: real)
    requires 0 < small <= large && !AskedWhenEvicted(calls, small, large, q)
    requires LookUp(Run(calls, ttl, small, embed), q, now).0.Some?
    ensures LookUp(Run(calls, ttl, large, embed), q, now).0.Some?
  {
    hide Run, LookUp;
    SameExpiry(calls, ttl, small, large, q);
    LargerMissesIff(calls, ttl, small, large, embed, q, now);
  }

  lemma RunOneMore(calls: seq<Call>, call: Call, ttl: real, max: nat, embed: Query -> Embedding)
    ensures Run(calls + [call], ttl, max, embed)
         == Answer(Run(calls, ttl, max, embed), call.query, call.now, ttl, max, embed(call.query)).1
  {
    assert (calls + [call])[..|calls|] == calls;
  }

  lemma TouchTwo(a: Query, b: Query)
    requires a != b
    ensures Touch([], a) == [a] && Touch([a], b) == [a, b] && Touch([a, b], a) == [b, a]
  {
    assert [a, b][..1] == [a] && [a][..0] == [] && [] + [a] == [a] && [] + [b] == [b];
    assert Remove([], a) == [] && Remove([], b) == [];
    assert Remove([a], a) == Remove([a][..0], a) + [];
    assert Remove([a], b) == Remove([a][..0], b) + [a];
    assert Remove([a, b], a) == Remove([a, b][..1], a) + [b];
  }

  lemma EvictFirst(a: Query, b: Query, table: map<Query, Cached>)
    ensures Evict(Cache([a, b], table), 1) == Cache([b], table - {a})
  {
    assert [a, b][1..] == [b];
  }

  lemma FirstEntry(q: Query, now: real, ttl: real, max: nat, value: Embedding)
    requires max > 0
    ensures Answer(Cache([], map[]), q, now, ttl, max, value).1 == Cache([q], map[q := Cached(now + ttl, value)])
  {
    assert Touch([], q) == [q];
  }

  /** A cache of size one replaces its entry. */
  lemma OnlyEntryReplaced(p: Query, entry: Cached, q: Query, now: real, ttl: real, value: Embedding)
    requires p != q
    ensures Answer(Cache([p], map[p := entry]), q, now, ttl, 1, value).1 == Cache([q], map[q := Cached(now + ttl, value)])
  {
    var added := map[p := entry][q := Cached(now + ttl, value)];
    TouchTwo(p, q);
    EvictFirst(p, q, added);
    assert added - {p} == map[q := Cached(now + ttl, value)];
  }

  /** Queries `a` at 0, `b` at 5 and `a` at 8, kept for 10: the small cache has evicted `a` in between. */
  lemma SmallCacheRun(embed: Query -> Embedding, a: Query, b: Query)
    requires a != b
    ensures Run([Call(a, 0.0)] + [Call(b, 5.0)] + [Call(a, 8.0)], 10.0, 1, embed)
         == Cache([a], map[a := Cached(18.0, embed(a))])
  {
    var one, two := [Call(a, 0.0)], [Call(a, 0.0)] + [Call(b, 5.0)];
    RunOneMore([], Call(a, 0.0), 10.0, 1, embed);
    RunOneMore(one, Call(b, 5.0), 10.0, 1, embed);
    RunOneMore(two, Call(a, 8.0), 10.0, 1, embed);
    assert [] + [Call(a, 0.0)] == one && Run([], 10.0, 1, embed) == Cache([], map[]);
    hide Run, Answer;
    FirstEntry(a, 0.0, 10.0, 1, embed(a));
    OnlyEntryReplaced(a, Cached(10.0, embed(a)), b, 5.0, 10.0, embed(b));
    OnlyEntryReplaced(b, Cached(15.0, embed(b)), a, 8.0, 10.0, embed(a));
  }

  /** The large cache answers the second `a` from the entry of the first, whose time then runs out sooner. */
  lemma LargeCacheRun(embed: Query -> Embedding, a: Query, b: Query)
    requires a != b
    ensures Run([Call(a, 0.0)] + [Call(b, 5.0)] + [Call(a, 8.0)], 10.0, 2, embed)
         == Cache([b, a], map[a := Cached(10.0, embed(a)), b := Cached(15.0, embed(b))])
  {
    var one, two := [Call(a, 0.0)], [Call(a, 0.0)] + [Call(b, 5.0)];
    RunOneMore([], Call(a, 0.0), 10.0, 2, embed);
    RunOneMore(one, Call(b, 5.0), 10.0, 2, embed);
    RunOneMore(two, Call(a, 8.0), 10.0, 2, embed);
    assert [] + [Call(a, 0.0)] == one;
    TouchTwo(a, b);
    hide Touch, Run;
    assert Run(one, 10.0, 2, embed) == Cache([a], map[a := Cached(10.0, embed(a))]);
    assert Run(two, 10.0, 2, embed) == Cache([a, b], map[a := Cached(10.0, embed(a)), b := Cached(15.0, embed(b))]);
  }

  /** The keys of the caches nest, the hits do not: the smaller cache can hit where the larger misses. */
  lemma LargerCacheCanMiss(embed: Query -> Embedding, a: Query, b: Query)
    requires a != b
    ensures var calls := [Call(a, 0.0)] + [Call(b, 5.0)] + [Call(a, 8.0)];
            && LookUp(Run(calls, 10.0, 1, embed), a, 12.0).0 == Some(embed(a))
            && LookUp(Run(calls, 10.0, 2, embed), a, 12.0).0 == None
  {
    SmallCacheRun(embed, a, b);
    LargeCacheRun(embed, a, b);
  }

  // ---------------------------------------------------------------- several threads

  /** The two critical sections, taken by any threads in any order; a store carries what was embedded. */
  datatype Step = LookUpStep(query: Query, now: real) | StoreStep(query: Query, expires: real)

  function Steps(steps: seq<Step>, max: nat, embed: Query -> Embedding): Cache {
    if steps == [] then Cache([], map[])
    else
      var c := Steps(steps[..|steps| - 1], max, embed);
      match steps[|steps| - 1]
      case LookUpStep(q, now) => LookUp(c, q, now).1
      case StoreStep(q, expires) => Store(c, q, Cached(expires, embed(q)), max)
  }

  /** However the critical sections interleave, the cache stays within its size and every value is right. */
  lemma {:induction false} InterleavingIsSafe(steps: seq<Step>, max: nat, embed: Query -> Embedding)
    ensures var c := Steps(steps, max, embed); Valid(c, embed) && |c.order| <= max && |c.table| <= max
  {
    hide Valid, LookUp, Store;
    var c := Steps(steps, max, embed);
    if steps != [] {
      InterleavingIsSafe(steps[..|steps| - 1], max, embed);
      var before := Steps(steps[..|steps| - 1], max, embed);
      match steps[|steps| - 1] {
        case LookUpStep(q, now) => LookUpKeepsValid(before, q, now, embed);
        case StoreStep(q, expires) => StoreKeepsValid(before, q, expires, max, embed);
      }
    }
    if steps == [] { EmptyValid(embed); }
    ValidCard(c, embed);
  }

  lemma EmptyValid(embed: Query -> Embedding)
    ensures Valid(Cache([], map[]), embed)
  {}

  lemma ValidCard(c: Cache, embed: Query -> Embedding)
    requires Valid(c, embed)
    ensures |c.table| == |c.order|
  {
    DistinctCard(c.order);
    assert c.table.Keys == set q | q in c.order;
  }

  lemma {:induction false} DistinctCard(s: seq<Query>)
    requires Distinct(s)
    ensures |set q | q in s| == |s|
  {
    if s != [] {
      var init := s[..|s| - 1];
      DistinctCard(init);
      assert (set q | q in s) == (set q | q in init) + {s[|s| - 1]};
    }
  }
}
