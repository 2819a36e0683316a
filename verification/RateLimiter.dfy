/** The sliding-window rate limiter (apps/ratelimit/rate_limiter.py). */
module RateLimiter {

  type Key = string

  /** Drop requests from the front while they are at or before the cutoff. */
  function Expire(bucket: seq<real>, cutoff: real): seq<real> {
    if bucket != [] && bucket[0] <= cutoff then Expire(bucket[1..], cutoff) else bucket
  }

  /** One request against one bucket: the answer, and the bucket afterwards. */
  function Step(max: int, window: real, bucket: seq<real>, now: real): (bool, seq<real>) {
    var live := Expire(bucket, now - window);
    if |live| >= max then (false, live) else (true, live + [now])
  }

  function BucketOf(hits: map<Key, seq<real>>, key: Key): seq<real> {
    if key in hits then hits[key] else []
  }

  class SlidingWindowRateLimiter {
    const maxRequests: int
    const windowSeconds: real
    var hits: map<Key, seq<real>>

    constructor (maxRequests: int, windowSeconds: real)
      ensures this.maxRequests == maxRequests && this.windowSeconds == windowSeconds && hits == map[]
    {
      this.maxRequests, this.windowSeconds, hits := maxRequests, windowSeconds, map[];
    }

    /** Answers and files the request under its key; a limiter without a positive maximum is switched off. */
    method Allow(key: Key, now: real) returns (ok: bool)
      modifies this
      ensures maxRequests <= 0 ==> ok && hits == old(hits)
      ensures maxRequests > 0 ==>
                (ok, hits) == Answer(maxRequests, windowSeconds, old(hits), Request(key, now))
    {
      if !(maxRequests > 0) {
        return true;
      }
      var cutoff := now - windowSeconds;
      if key !in hits {
        hits := hits[key := []];
      }
      while hits[key] != [] && hits[key][0] <= cutoff
        invariant key in hits && hits == old(hits)[key := hits[key]]
        invariant Expire(hits[key], cutoff) == Expire(BucketOf(old(hits), key), cutoff)
        decreases |hits[key]|
      {
        hits := hits[key := hits[key][1..]];
      }
      assert hits[key] == Expire(BucketOf(old(hits), key), cutoff);
      if |hits[key]| >= maxRequests {
        return false;
      }
      hits := hits[key := hits[key] + [now]];
      assert hits == old(hits)[key := Expire(BucketOf(old(hits), key), cutoff) + [now]];
      return true;
    }
  }

  // ---------------------------------------------------------------- a run of requests

  datatype Request = Request(key: Key, now: real)

  function Answer(max: int, window: real, hits: map<Key, seq<real>>, r: Request): (bool, map<Key, seq<real>>) {
    var (ok, bucket) := Step(max, window, BucketOf(hits, r.key), r.now);
    (ok, hits[r.key := bucket])
  }

  /** The buckets after a run, and the requests it allowed, in order. */
  function Serve(max: int, window: real, run: seq<Request>): (map<Key, seq<real>>, seq<Request>) {
    if run == [] then (map[], [])
    else
      var (hits, allowed) := Serve(max, window, run[..|run| - 1]);
      var (ok, after) := Answer(max, window, hits, run[|run| - 1]);
      (after, if ok then allowed + [run[|run| - 1]] else allowed)
  }

  /** The times of the requests of one key. */
  function TimesOf(run: seq<Request>, key: Key): seq<real> {
    if run == [] then []
    else
      var r := run[|run| - 1];
      TimesOf(run[..|run| - 1], key) + if r.key == key then [r.now] else []
  }

  /** The same for one key on its own: its bucket, and the times it was allowed. */
  function Replay(max: int, window: real, times: seq<real>): (seq<real>, seq<real>) {
    if times == [] then ([], [])
    else
      var now := times[|times| - 1];
      var (bucket, allowed) := Replay(max, window, times[..|times| - 1]);
      var (ok, after) := Step(max, window, bucket, now);
      (after, if ok then allowed + [now] else allowed)
  }

  /** Keys do not affect each other: what a key sees in a run is what it would see alone. */
  lemma {:induction false} KeysAreIndependent(max: int, window: real, run: seq<Request>, key: Key)
    ensures var (hits, allowed) := Serve(max, window, run);
            (BucketOf(hits, key), TimesOf(allowed, key)) == Replay(max, window, TimesOf(run, key))
  {
    if run != [] {
      var init, r := run[..|run| - 1], run[|run| - 1];
      KeysAreIndependent(max, window, init, key);
      var (hits, allowed) := Serve(max, window, init);
      assert (allowed + [r])[..|allowed|] == allowed;
      hide Step;
      if r.key == key {
        var times := TimesOf(run, key);
        assert times[..|times| - 1] == TimesOf(init, key) && times[|times| - 1] == r.now;
      } else {
        assert TimesOf(run, key) == TimesOf(init, key) + [] == TimesOf(init, key);
        assert TimesOf(allowed + [r], key) == TimesOf(allowed, key) + [] == TimesOf(allowed, key);
      }
    }
  }

  ghost predicate Ascending(ts: seq<real>) {
    forall i, j :: 0 <= i < j < |ts| ==> ts[i] <= ts[j]
  }

  ghost predicate AtMost(ts: seq<real>, hi: real) {
    forall i :: 0 <= i < |ts| ==> ts[i] <= hi
  }

  ghost predicate Above(ts: seq<real>, lo: real) {
    forall i :: 0 <= i < |ts| ==> ts[i] > lo
  }

  ghost predicate ClockRuns(run: seq<Request>) {
    forall i, j :: 0 <= i < j < |run| ==> run[i].now <= run[j].now
  }

  lemma {:induction false} TimesAscend(run: seq<Request>, key: Key)
    requires ClockRuns(run)
    ensures Ascending(TimesOf(run, key))
    ensures run != [] ==> AtMost(TimesOf(run, key), run[|run| - 1].now)
  {
    if run != [] {
      var init := run[..|run| - 1];
      TimesAscend(init, key);
      assert init == [] ==> TimesOf(init, key) == [];
      assert init != [] ==> init[|init| - 1].now <= run[|run| - 1].now;
    }
  }

  // ---------------------------------------------------------------- the window

  /** The times in the interval (lo, hi]. */
  function Within(ts: seq<real>, lo: real, hi: real): seq<real> {
    if ts == [] then []
    else Within(ts[..|ts| - 1], lo, hi) + if lo < ts[|ts| - 1] <= hi then [ts[|ts| - 1]] else []
  }

  /** How many of the times lie in the interval (lo, hi]. */
  function CountIn(ts: seq<real>, lo: real, hi: real): nat { |Within(ts, lo, hi)| }

  lemma {:induction false} WithinConcat(a: seq<real>, b: seq<real>, lo: real, hi: real)
    ensures Within(a + b, lo, hi) == Within(a, lo, hi) + Within(b, lo, hi)
  {
    if b == [] {
      assert a + b == a;
    } else {
      assert (a + b)[..|a + b| - 1] == a + b[..|b| - 1];
      WithinConcat(a, b[..|b| - 1], lo, hi);
    }
  }

  lemma {:induction false} WithinNone(ts: seq<real>, lo: real, hi: real)
    requires AtMost(ts, lo)
    ensures Within(ts, lo, hi) == []
  {
    if ts != [] { WithinNone(ts[..|ts| - 1], lo, hi); }
  }

  lemma {:induction false} WithinAll(ts: seq<real>, lo: real, hi: real)
    requires Above(ts, lo) && AtMost(ts, hi)
    ensures Within(ts, lo, hi) == ts
  {
    if ts != [] { WithinAll(ts[..|ts| - 1], lo, hi); }
  }

  lemma {:induction false} CountGrows(ts: seq<real>, lo: real, lo': real, hi: real, hi': real)
    requires lo' <= lo && AtMost(ts, hi')
    ensures CountIn(ts, lo, hi) <= CountIn(ts, lo', hi')
  {
    if ts != [] {
      CountGrows(ts[..|ts| - 1], lo, lo', hi, hi');
    }
  }

  lemma AscendingParts(ts: seq<real>, cutoff: real)
    requires Ascending(ts) && ts != []
    ensures Ascending(ts[1..]) && (ts[0] > cutoff ==> Above(ts, cutoff))
  {
    forall i | 0 <= i < |ts| ensures ts[0] <= ts[i] {}
  }

  /** Expiry splits an ascending bucket at the cutoff. */
  lemma {:induction false} ExpireSplits(bucket: seq<real>, cutoff: real) returns (gone: seq<real>)
    requires Ascending(bucket)
    ensures bucket == gone + Expire(bucket, cutoff)
    ensures AtMost(gone, cutoff) && Above(Expire(bucket, cutoff), cutoff)
  {
    gone := [];
    if bucket != [] {
      AscendingParts(bucket, cutoff);
      hide Ascending;
      if bucket[0] <= cutoff {
        var more := ExpireSplits(bucket[1..], cutoff);
        gone := [bucket[0]] + more;
        assert bucket == [bucket[0]] + bucket[1..];
      }
    }
  }

  /** An allowed history, and the bucket as its end: what the bucket lacks was over a window old at `now`. */
  ghost predicate EndsWith(allowed: seq<real>, gone: seq<real>, bucket: seq<real>, window: real, now: real) {
    && allowed == gone + bucket && Ascending(allowed) && AtMost(allowed, now) && AtMost(gone, now - window)
  }

  lemma ExpiredEnd(allowed: seq<real>, gone: seq<real>, bucket: seq<real>, window: real, earlier: real, now: real)
    returns (more: seq<real>)
    requires EndsWith(allowed, gone, bucket, window, earlier) && earlier <= now
    ensures EndsWith(allowed, more, Expire(bucket, now - window), window, now)
    ensures Above(Expire(bucket, now - window), now - window)
  {
    assert Ascending(bucket) by { forall i | 0 <= i < |bucket| ensures bucket[i] == allowed[|gone| + i] {} }
    var older := ExpireSplits(bucket, now - window);
    more := gone + older;
    assert allowed == more + Expire(bucket, now - window);
  }

  lemma OneMoreAllowed(allowed: seq<real>, gone: seq<real>, bucket: seq<real>, window: real, now: real)
    requires EndsWith(allowed, gone, bucket, window, now)
    ensures EndsWith(allowed + [now], gone, bucket + [now], window, now)
  {
    assert allowed + [now] == gone + (bucket + [now]);
  }

  /** The bucket is always the end of the allowed history. */
  lemma {:induction false} BucketIsRecentHistory(max: int, window: real, times: seq<real>) returns (gone: seq<real>)
    requires Ascending(times) && times != []
    ensures var (bucket, allowed) := Replay(max, window, times);
            EndsWith(allowed, gone, bucket, window, times[|times| - 1])
  {
    hide EndsWith, Expire;
    var init, now := times[..|times| - 1], times[|times| - 1];
    var (bucket, allowed) := Replay(max, window, init);
    if init == [] {
      NothingYet(window, now);
      gone := ExpiredEnd([], [], [], window, now, now);
    } else {
      var before := BucketIsRecentHistory(max, window, init);
      assert times[|init| - 1] <= times[|init|];
      gone := ExpiredEnd(allowed, before, bucket, window, init[|init| - 1], now);
    }
    OneMoreAllowed(allowed, gone, Expire(bucket, now - window), window, now);
  }

  lemma NothingYet(window: real, now: real)
    ensures EndsWith([], [], [], window, now)
  {}

  lemma EndIsWindow(allowed: seq<real>, gone: seq<real>, live: seq<real>, window: real, now: real)
    requires EndsWith(allowed, gone, live, window, now) && Above(live, now - window)
    ensures live == Within(allowed, now - window, now)
  {
    WithinConcat(gone, live, now - window, now);
    WithinNone(gone, now - window, now);
    assert AtMost(live, now) by { forall i | 0 <= i < |live| ensures live[i] == allowed[|gone| + i] {} }
    WithinAll(live, now - window, now);
  }

  /** At the time of a request the live bucket is exactly what was allowed in the window (now - W, now]. */
  lemma LiveBucketIsWindow(max: int, window: real, times: seq<real>, now: real)
    requires Ascending(times + [now])
    ensures var (bucket, allowed) := Replay(max, window, times);
            Expire(bucket, now - window) == Within(allowed, now - window, now)
  {
    if times != [] {
      BeforeNow(times, now);
      hide EndsWith, Expire, Replay, Within, Ascending;
      var (bucket, allowed) := Replay(max, window, times);
      var before := BucketIsRecentHistory(max, window, times);
      var gone := ExpiredEnd(allowed, before, bucket, window, times[|times| - 1], now);
      EndIsWindow(allowed, gone, Expire(bucket, now - window), window, now);
    }
  }

  lemma BeforeNow(times: seq<real>, now: real)
    requires Ascending(times + [now])
    ensures Ascending(times) && AtMost(times, now)
  {
    var all := times + [now];
    forall i | 0 <= i < |times| ensures times[i] <= now { assert all[i] <= all[|times|]; }
    forall i, j | 0 <= i < j < |times| ensures times[i] <= times[j] { assert all[i] <= all[j]; }
  }

  /**
   * For times that do not run backwards a request is denied exactly when the window that ends with
   * it already holds the maximum; a denied request leaves no trace in the history.
   */
  lemma DeniedIffWindowFull(max: int, window: real, times: seq<real>, now: real)
    requires Ascending(times + [now])
    ensures var (_, allowed) := Replay(max, window, times);
            var (_, after) := Replay(max, window, times + [now]);
            after == if CountIn(allowed, now - window, now) >= max then allowed else allowed + [now]
  {
    LiveBucketIsWindow(max, window, times, now);
    assert (times + [now])[..|times|] == times;
  }

  lemma {:induction false} AllowedAreRequests(max: int, window: real, times: seq<real>, hi: real)
    requires AtMost(times, hi)
    ensures AtMost(Replay(max, window, times).1, hi)
  {
    if times != [] { AllowedAreRequests(max, window, times[..|times| - 1], hi); }
  }

  lemma OneMoreCount(allowed: seq<real>, window: real, now: real, x: real)
    requires AtMost(allowed, now) && x < now <= x + window
    ensures CountIn(allowed + [now], x, x + window) <= CountIn(allowed, now - window, now) + 1
  {
    assert (allowed + [now])[..|allowed|] == allowed;
    CountGrows(allowed, x, now - window, x + window, now);
  }

  lemma OutsideCount(allowed: seq<real>, window: real, now: real, x: real)
    requires !(x < now <= x + window)
    ensures CountIn(allowed + [now], x, x + window) == CountIn(allowed, x, x + window)
  {
    assert (allowed + [now])[..|allowed|] == allowed;
  }

  /** No interval of the window's length, wherever it lies, holds more than the maximum of allowed requests. */
  lemma {:induction false} NeverMoreThanMax(max: int, window: real, times: seq<real>, x: real)
    requires max > 0 && Ascending(times)
    ensures CountIn(Replay(max, window, times).1, x, x + window) <= max
  {
    if times != [] {
      var init, now := times[..|times| - 1], times[|times| - 1];
      assert init + [now] == times;
      BeforeNow(init, now);
      var allowed := Replay(max, window, init).1;
      hide Replay, Ascending, CountIn, Within, AtMost;
      NeverMoreThanMax(max, window, init, x);
      DeniedIffWindowFull(max, window, init, now);
      AllowedAreRequests(max, window, init, now);
      if x < now <= x + window {
        OneMoreCount(allowed, window, now, x);
      } else {
        OutsideCount(allowed, window, now, x);
      }
    }
  }

  /** So over a whole run of requests of any keys, each key stays within the limit. */
  lemma EveryKeyStaysWithinTheLimit(max: int, window: real, run: seq<Request>, key: Key, x: real)
    requires max > 0 && ClockRuns(run)
    ensures CountIn(TimesOf(Serve(max, window, run).1, key), x, x + window) <= max
  {
    KeysAreIndependent(max, window, run, key);
    TimesAscend(run, key);
    NeverMoreThanMax(max, window, TimesOf(run, key), x);
  }
}
