/**
 Fixed-window rate limiting, per bucket and client address: the in-memory window opened
 by a request, and the minute-aligned window kept in Redis.
 */
module RateLimit {
  import opened Wrappers
  import opened Instants

  /** No limit configured is 0; a configured limit of zero or less means the default of 60 requests a minute. */
  function EffectiveLimit(requestsPerMinute: Option<int>): (limit: nat)
    ensures limit == 0 <==> requestsPerMinute.None?
    ensures requestsPerMinute.Some? && requestsPerMinute.value > 0 ==> limit == requestsPerMinute.value
    ensures requestsPerMinute.Some? && requestsPerMinute.value <= 0 ==> limit == 60
  {
    if requestsPerMinute.None? then 0
    else if requestsPerMinute.value <= 0 then 60
    else requestsPerMinute.value
  }

  datatype Counter = Counter(count: nat, reset: Instant)

  /** The counter a request at `now` is counted on, and whether the request is let through. */
  function Count(counter: Option<Counter>, now: Instant): Counter {
    if counter.None? || now > counter.value.reset then Counter(1, now + MINUTE)
    else Counter(counter.value.count + 1, counter.value.reset)
  }

  class RateLimitStore {
    var counters: map<string, Counter>

    constructor ()
      ensures counters == map[]
    {
      counters := map[];
    }

    function Get(key: string): Option<Counter>
      reads this
    {
      if key in counters then Some(counters[key]) else None
    }

    /**
     `requestsPerMinute` is absent when no limit is configured. The clock is read twice:
     `now` to count, `later` to tell the caller how long the window still runs.
     */
    method Allow(ip: string, bucket: string, requestsPerMinute: Option<int>, now: Instant, later: Instant)
      returns (allowed: bool, remaining: nat, reset: nat)
      modifies this
      ensures requestsPerMinute.None? ==> allowed && counters == old(counters)
      ensures requestsPerMinute.Some? ==>
                var limit := EffectiveLimit(requestsPerMinute);
                var key := KeyOf(bucket, ip);
                var counter := Count(old(Get(key)), now);
                && counters == old(counters)[key := counter]
                && (allowed <==> counter.count <= limit)
                && remaining == (if counter.count <= limit then limit - counter.count else 0)
                && reset == (if later <= counter.reset then counter.reset - later else 0)
    {
      if requestsPerMinute.None? { return true, 0, 0; }
      var threshold := EffectiveLimit(requestsPerMinute);
      var key := KeyOf(bucket, ip);
      if key !in counters || now > counters[key].reset {
        counters := counters[key := Counter(0, now + MINUTE)];
      }
      counters := counters[key := counters[key].(count := counters[key].count + 1)];
      allowed := counters[key].count <= threshold;
      remaining := if threshold - counters[key].count < 0 then 0 else threshold - counters[key].count;
      reset := if counters[key].reset - later < 0 then 0 else counters[key].reset - later;
    }
  }

  /** The counter key of a bucket and an address. */
  function KeyOf(bucket: string, ip: string): string {
    bucket + ":" + ip
  }

  /** Keys of different buckets or addresses differ: bucket names hold no colon (addresses may). */
  lemma KeysDiffer(bucket: string, ip: string, bucket': string, ip': string)
    requires ':' !in bucket && ':' !in bucket'
    requires KeyOf(bucket, ip) == KeyOf(bucket', ip')
    ensures bucket == bucket' && ip == ip'
  {
    var key := KeyOf(bucket, ip);
    assert key[|bucket|] == ':' && key[|bucket'|] == ':';
    assert forall i :: 0 <= i < |bucket| ==> key[i] == bucket[i];
    assert forall i :: 0 <= i < |bucket'| ==> key[i] == bucket'[i];
    assert |bucket| == |bucket'|;
    assert bucket == key[..|bucket|] && bucket' == key[..|bucket'|];
    assert ip == key[|bucket| + 1..] && ip' == key[|bucket'| + 1..];
  }

  ghost predicate Monotone(times: seq<Instant>) {
    forall i, j :: 0 <= i < j < |times| ==> times[i] <= times[j]
  }

  predicate Within(t: Instant, from: Instant) {
    from <= t <= from + MINUTE
  }

  // ----- the in-memory window -----

  /** The counter after requests at `times`, starting with none. */
  function After(times: seq<Instant>): Option<Counter> {
    if times == [] then None
    else Some(Count(After(times[..|times| - 1]), times[|times| - 1]))
  }

  /** Is the last of the requests let through? */
  predicate LastAdmitted(limit: nat, times: seq<Instant>)
    requires times != []
  {
    After(times).value.count <= limit
  }

  /** How many of the requests are both let through and in the 60 seconds from `from`. */
  function Admitted(limit: nat, times: seq<Instant>, from: Instant): nat {
    if times == [] then 0
    else
      Admitted(limit, times[..|times| - 1], from) +
      if LastAdmitted(limit, times) && Within(times[|times| - 1], from) then 1 else 0
  }

  /** How many of the requests come at `from` or later. */
  function CountFrom(times: seq<Instant>, from: Instant): nat {
    if times == [] then 0
    else CountFrom(times[..|times| - 1], from) + if times[|times| - 1] >= from then 1 else 0
  }

  lemma {:induction false} NoneFrom(times: seq<Instant>, from: Instant)
    requires Monotone(times) && (times != [] ==> times[|times| - 1] < from)
    ensures CountFrom(times, from) == 0
  {
    if times != [] { NoneFrom(times[..|times| - 1], from); }
  }

  /**
   The counter is the request's position in its window: it counts exactly the requests
   made since the window opened, so a window lets through its first `limit` requests.
   */
  lemma {:induction false} CounterIsPosition(times: seq<Instant>)
    requires Monotone(times) && times != []
    ensures var (c, last) := (After(times).value, times[|times| - 1]);
            && c.reset - MINUTE <= last <= c.reset
            && c.count == CountFrom(times, c.reset - MINUTE)
            && 1 <= c.count
  {
    var n := |times| - 1;
    var prefix := times[..n];
    if n > 0 { CounterIsPosition(prefix); }
    if n == 0 || times[n] > After(prefix).value.reset {
      NoneFrom(prefix, times[n]);
    }
  }

  function Least(a: nat, b: nat): nat {
    if a < b then a else b
  }

  /**
   What can have been admitted in the 60 seconds from `from`: nothing before it starts;
   while the window that was open at its start lasts, that window's admissions without
   its first; after that, at most one more window's.
   */
  lemma {:induction false} AdmittedSoFar(limit: nat, times: seq<Instant>, from: Instant)
    requires limit > 0 && Monotone(times) && times != []
    ensures var (c, last, a) := (After(times).value, times[|times| - 1], Admitted(limit, times, from));
            && (last < from ==> a == 0)
            && (from <= last && c.reset - MINUTE < from ==> a <= Least(c.count, limit) - 1)
            && (from <= last <= from + MINUTE && c.reset - MINUTE >= from ==> a <= limit - 1 + Least(c.count, limit))
            && a <= 2 * limit - 1
  {
    var n := |times| - 1;
    CounterIsPosition(times);
    if n > 0 {
      CounterIsPosition(times[..n]);
      AdmittedSoFar(limit, times[..n], from);
    }
  }

  /** In memory, at most 2 * limit - 1 requests are admitted in any 60 seconds, both ends included. */
  lemma InMemoryBound(limit: nat, times: seq<Instant>, from: Instant)
    requires limit > 0 && Monotone(times)
    ensures Admitted(limit, times, from) <= 2 * limit - 1
  {
    if times != [] { AdmittedSoFar(limit, times, from); }
  }

  function Burst(n: nat, at: nat): seq<nat> {
    seq(n, _ => at)
  }

  /** More requests at one instant of an open window are admitted while the limit lasts. */
  lemma {:induction false} BurstAdmitted(limit: nat, times: seq<Instant>, n: nat, at: nat, from: Instant)
    requires times != [] && Within(at, from)
    requires at <= After(times).value.reset && After(times).value.count + n <= limit
    ensures After(times + Burst(n, at)) == Some(After(times).value.(count := After(times).value.count + n))
    ensures Admitted(limit, times + Burst(n, at), from) == Admitted(limit, times, from) + n
  {
    if n == 0 {
      assert times + Burst(0, at) == times;
    } else {
      BurstAdmitted(limit, times, n - 1, at, from);
      assert (times + Burst(n, at))[..|times| + n - 1] == times + Burst(n - 1, at);
    }
  }

  /** One request, limit - 1 at the last instant of its window, limit just after. */
  function BusiestTimes(limit: nat): (times: seq<nat>)
    requires limit > 0
    ensures forall i :: 0 <= i < |times| ==> times[i] <= MINUTE + 1
  {
    [0] + Burst(limit - 1, MINUTE) + [MINUTE + 1] + Burst(limit - 1, MINUTE + 1)
  }

  /** The bound is attained for every limit. */
  lemma InMemoryBoundAttained(limit: nat)
    requires limit > 0
    ensures Monotone(BusiestTimes(limit)) && Admitted(limit, BusiestTimes(limit), MINUTE) == 2 * limit - 1
  {
    var opening: seq<Instant> := [0];
    assert opening[..0] == [];
    assert After(opening) == Some(Counter(1, MINUTE));
    var full := opening + Burst(limit - 1, MINUTE);
    BurstAdmitted(limit, opening, limit - 1, MINUTE, MINUTE);
    var next := full + [MINUTE + 1];
    assert next[..|next| - 1] == full;
    BurstAdmitted(limit, next, limit - 1, MINUTE + 1, MINUTE);
  }

  // ----- the Redis window -----

  /** A key of the store: its count, and when it expires, if an expiry was set. */
  datatype Stored = Stored(count: nat, expiresAt: Option<Instant>)

  /** The minute a time falls in, which is part of the key. */
  function WindowOf(t: nat): nat {
    t / SECOND / 60
  }

  lemma WindowBounds(t: nat)
    ensures WindowOf(t) * MINUTE <= t < (WindowOf(t) + 1) * MINUTE
  {
  }

  datatype Request = Request(at: nat, expireFails: bool)

  /** INCR at `now`, followed by EXPIRE on the first count; the outcome of EXPIRE is ignored. */
  function Increment(store: map<nat, Stored>, r: Request): map<nat, Stored> {
    var w := WindowOf(r.at);
    if w in store && (store[w].expiresAt.None? || r.at < store[w].expiresAt.value)
    then store[w := Stored(store[w].count + 1, store[w].expiresAt)]
    else store[w := Stored(1, if r.expireFails then None else Some(r.at + MINUTE))]
  }

  function StoreAfter(requests: seq<Request>): map<nat, Stored> {
    if requests == [] then map[]
    else Increment(StoreAfter(requests[..|requests| - 1]), requests[|requests| - 1])
  }

  ghost predicate InOrder(requests: seq<Request>) {
    forall i, j :: 0 <= i < j < |requests| ==> requests[i].at <= requests[j].at
  }

  /** How many requests fall in a window. */
  function InWindow(requests: seq<Request>, w: nat): nat {
    if requests == [] then 0
    else InWindow(requests[..|requests| - 1], w) + if WindowOf(requests[|requests| - 1].at) == w then 1 else 0
  }

  /** The first request of a window. */
  function FirstIn(requests: seq<Request>, w: nat): Option<Request> {
    if requests == [] then None
    else
      var (first, last) := (FirstIn(requests[..|requests| - 1], w), requests[|requests| - 1]);
      if first.Some? then first else if WindowOf(last.at) == w then Some(last) else None
  }

  /**
   Expiry never resets a window that is still running: the stored count of every window
   that can still be asked for is the number of requests that fell in it. The key
   expires one minute after the first of them, or never if that expiry could not be set.
   */
  lemma {:induction false} StoredIsPosition(requests: seq<Request>, w: nat)
    requires InOrder(requests)
    ensures var store := StoreAfter(requests);
            && (w in store <==> InWindow(requests, w) > 0)
            && (w in store ==> store[w].count == InWindow(requests, w))
            && (w in store && store[w].expiresAt.Some? ==> store[w].expiresAt.value >= (w + 1) * MINUTE)
            && (w in store <==> FirstIn(requests, w).Some?)
            && (w in store ==>
                  var first := FirstIn(requests, w).value;
                  store[w].expiresAt == if first.expireFails then None else Some(first.at + MINUTE))
  {
    if requests != [] {
      var n := |requests| - 1;
      StoredIsPosition(requests[..n], w);
      WindowBounds(requests[n].at);
    }
  }

  /** Requests let through by Redis among those of window `w`. */
  function RedisAdmittedIn(limit: nat, requests: seq<Request>, w: nat): nat {
    if requests == [] then 0
    else
      var n := |requests| - 1;
      RedisAdmittedIn(limit, requests[..n], w) +
      if WindowOf(requests[n].at) == w && w in StoreAfter(requests) && StoreAfter(requests)[w].count <= limit then 1 else 0
  }

  /** Each minute window admits exactly its first `limit` requests. */
  lemma {:induction false} RedisAdmitsFirst(limit: nat, requests: seq<Request>, w: nat)
    requires InOrder(requests)
    ensures RedisAdmittedIn(limit, requests, w) == Least(InWindow(requests, w), limit)
  {
    if requests != [] {
      RedisAdmitsFirst(limit, requests[..|requests| - 1], w);
      StoredIsPosition(requests, w);
    }
  }

  /** Requests let through by Redis in the 60 seconds from `from`. */
  function RedisAdmitted(limit: nat, requests: seq<Request>, from: nat): nat {
    if requests == [] then 0
    else
      var n := |requests| - 1;
      var w := WindowOf(requests[n].at);
      RedisAdmitted(limit, requests[..n], from) +
      if Within(requests[n].at, from) && w in StoreAfter(requests) && StoreAfter(requests)[w].count <= limit then 1 else 0
  }

  lemma {:induction false} RedisTwoWindows(limit: nat, requests: seq<Request>, from: nat)
    ensures var w := WindowOf(from);
            RedisAdmitted(limit, requests, from) <= RedisAdmittedIn(limit, requests, w) + RedisAdmittedIn(limit, requests, w + 1)
  {
    if requests != [] {
      var n := |requests| - 1;
      RedisTwoWindows(limit, requests[..n], from);
      WindowBounds(from);
      WindowBounds(requests[n].at);
    }
  }

  /** Through Redis, at most 2 * limit requests are admitted in any 60 seconds, both ends included. */
  lemma RedisBound(limit: nat, requests: seq<Request>, from: nat)
    requires InOrder(requests)
    ensures RedisAdmitted(limit, requests, from) <= 2 * limit
  {
    RedisTwoWindows(limit, requests, from);
    RedisAdmitsFirst(limit, requests, WindowOf(from));
    RedisAdmitsFirst(limit, requests, WindowOf(from) + 1);
  }

  /** Inside one interval of 60 seconds the two windows account for every admission. */
  lemma {:induction false} RedisTwoWindowsExact(limit: nat, requests: seq<Request>, from: nat)
    requires forall i :: 0 <= i < |requests| ==> Within(requests[i].at, from)
    ensures var w := WindowOf(from);
            RedisAdmitted(limit, requests, from) == RedisAdmittedIn(limit, requests, w) + RedisAdmittedIn(limit, requests, w + 1)
  {
    if requests != [] {
      var n := |requests| - 1;
      RedisTwoWindowsExact(limit, requests[..n], from);
      WindowBounds(from);
      WindowBounds(requests[n].at);
    }
  }

  function RequestBurst(n: nat, at: nat): seq<Request> {
    seq(n, _ => Request(at, false))
  }

  lemma {:induction false} InWindowBurst(requests: seq<Request>, n: nat, at: nat, w: nat)
    ensures InWindow(requests + RequestBurst(n, at), w) == InWindow(requests, w) + if WindowOf(at) == w then n else 0
  {
    if n == 0 {
      assert requests + RequestBurst(0, at) == requests;
    } else {
      InWindowBurst(requests, n - 1, at, w);
      assert (requests + RequestBurst(n, at))[..|requests| + n - 1] == requests + RequestBurst(n - 1, at);
    }
  }

  /** limit requests within one minute window, limit at the first instant of the next. */
  function BusiestRequests(limit: nat): seq<Request> {
    RequestBurst(limit, MINUTE + 1) + RequestBurst(limit, 2 * MINUTE)
  }

  /** The bound is attained for every limit. */
  lemma RedisBoundAttained(limit: nat)
    ensures InOrder(BusiestRequests(limit)) && RedisAdmitted(limit, BusiestRequests(limit), MINUTE) == 2 * limit
  {
    var first := RequestBurst(limit, MINUTE + 1);
    var requests := BusiestRequests(limit);
    assert WindowOf(MINUTE) == 1 && WindowOf(MINUTE + 1) == 1 && WindowOf(2 * MINUTE) == 2;
    RedisTwoWindowsExact(limit, requests, MINUTE);
    assert [] + first == first;
    forall w | w == 1 || w == 2
      ensures InWindow(requests, w) == limit
    {
      InWindowBurst([], limit, MINUTE + 1, w);
      InWindowBurst(first, limit, 2 * MINUTE, w);
    }
    RedisAdmitsFirst(limit, requests, 1);
    RedisAdmitsFirst(limit, requests, 2);
  }

  /** The Redis keys of one bucket and address, by minute. */
  class RedisWindows {
    var keys: map<nat, Stored>

    method RedisAllow(requestsPerMinute: Option<int>, r: Request, later: Instant)
      returns (allowed: bool, remaining: nat, reset: int)
      modifies this
      ensures requestsPerMinute.None? ==> allowed && keys == old(keys)
      ensures requestsPerMinute.Some? ==>
                var (limit, w) := (EffectiveLimit(requestsPerMinute), WindowOf(r.at));
                && keys == Increment(old(keys), r)
                && (allowed <==> keys[w].count <= limit)
                && remaining == (if keys[w].count <= limit then limit - keys[w].count else 0)
                && later + reset == (w + 1) * MINUTE
    {
      if requestsPerMinute.None? { return true, 0, 0; }
      var threshold := EffectiveLimit(requestsPerMinute);
      var window := WindowOf(r.at);
      var alive := window in keys && (keys[window].expiresAt.None? || r.at < keys[window].expiresAt.value);
      var cnt := if alive then keys[window].count + 1 else 1;
      keys := keys[window := Stored(cnt, if alive then keys[window].expiresAt else None)];
      if !alive && !r.expireFails {
        keys := keys[window := keys[window].(expiresAt := Some(r.at + MINUTE))];
      }
      allowed := cnt <= threshold;
      remaining := if threshold - cnt < 0 then 0 else threshold - cnt;
      reset := (window + 1) * 60 * SECOND - later;
    }
  }

  // ----- the middleware -----

  /**
   How a request was served: by Redis; in memory, with Redis not configured or refusing
   the command; or in memory although Redis had counted it, its reply being lost.
   */
  datatype Served = ByRedis(r: Request) | InMemory(at: nat) | ReplyLost(r: Request)

  function TimeOf(x: Served): nat {
    if x.InMemory? then x.at else x.r.at
  }

  ghost predicate ServedMonotone(served: seq<Served>) {
    forall i, j :: 0 <= i < j < |served| ==> TimeOf(served[i]) <= TimeOf(served[j])
  }

  function RedisPart(served: seq<Served>): seq<Request> {
    if served == [] then []
    else
      var (rest, last) := (RedisPart(served[..|served| - 1]), served[|served| - 1]);
      if last.InMemory? then rest else rest + [last.r]
  }

  function MemoryPart(served: seq<Served>): seq<Instant> {
    if served == [] then []
    else
      var (rest, last) := (MemoryPart(served[..|served| - 1]), served[|served| - 1]);
      if last.ByRedis? then rest else rest + [TimeOf(last)]
  }

  /** Requests the middleware lets through in the 60 seconds from `from`. */
  function LetThrough(limit: nat, served: seq<Served>, from: nat): nat {
    if served == [] then 0
    else
      var last := served[|served| - 1];
      LetThrough(limit, served[..|served| - 1], from) +
      if !Within(TimeOf(last), from) then 0
      else if last.ByRedis? then
        var store := StoreAfter(RedisPart(served));
        var w := WindowOf(last.r.at);
        if w in store && store[w].count <= limit then 1 else 0
      else if MemoryPart(served) != [] && LastAdmitted(limit, MemoryPart(served)) then 1 else 0
  }

  lemma {:induction false} PartsInOrder(served: seq<Served>)
    requires ServedMonotone(served)
    ensures InOrder(RedisPart(served)) && Monotone(MemoryPart(served))
    ensures served != [] ==>
              && (forall i :: 0 <= i < |RedisPart(served)| ==> RedisPart(served)[i].at <= TimeOf(served[|served| - 1]))
              && (forall i :: 0 <= i < |MemoryPart(served)| ==> MemoryPart(served)[i] <= TimeOf(served[|served| - 1]))
  {
    if served != [] {
      var n := |served| - 1;
      PartsInOrder(served[..n]);
      assert n > 0 ==> TimeOf(served[..n][n - 1]) <= TimeOf(served[n]);
    }
  }

  lemma {:induction false} LetThroughByParts(limit: nat, served: seq<Served>, from: nat)
    ensures LetThrough(limit, served, from) <=
            RedisAdmitted(limit, RedisPart(served), from) + Admitted(limit, MemoryPart(served), from)
  {
    if served != [] {
      var n := |served| - 1;
      LetThroughByParts(limit, served[..n], from);
      var (redis, memory) := (RedisPart(served), MemoryPart(served));
      if !served[n].InMemory? { assert redis[..|redis| - 1] == RedisPart(served[..n]); }
      if !served[n].ByRedis? { assert memory[..|memory| - 1] == MemoryPart(served[..n]); }
    }
  }

  /**
   However requests are split between Redis and the in-memory fallback, for one bucket and
   address fewer than four times the limit get through in any 60 seconds.
   */
  lemma MiddlewareBound(limit: nat, served: seq<Served>, from: nat)
    requires limit > 0
    requires ServedMonotone(served)
    ensures LetThrough(limit, served, from) <= 4 * limit - 1
  {
    PartsInOrder(served);
    LetThroughByParts(limit, served, from);
    RedisBound(limit, RedisPart(served), from);
    InMemoryBound(limit, MemoryPart(served), from);
  }

  /** Requests at `times` served in memory, followed by `requests` served by Redis. */
  function MemoryThenRedis(times: seq<nat>, requests: seq<Request>): seq<Served> {
    seq(|times|, i requires 0 <= i < |times| => InMemory(times[i])) +
    seq(|requests|, i requires 0 <= i < |requests| => ByRedis(requests[i]))
  }

  /** One more request that Redis answers. */
  lemma OneMoreByRedis(limit: nat, served: seq<Served>, r: Request, from: nat)
    ensures var more := served + [ByRedis(r)];
            && RedisPart(more) == RedisPart(served) + [r] && MemoryPart(more) == MemoryPart(served)
            && LetThrough(limit, more, from) - LetThrough(limit, served, from) ==
               RedisAdmitted(limit, RedisPart(served) + [r], from) - RedisAdmitted(limit, RedisPart(served), from)
  {
    var more, redis := served + [ByRedis(r)], RedisPart(served) + [r];
    assert more[..|more| - 1] == served && redis[..|redis| - 1] == RedisPart(served);
  }

  /** One more request served in memory. */
  lemma OneMoreInMemory(limit: nat, served: seq<Served>, at: nat, from: nat)
    ensures var more := served + [InMemory(at)];
            && RedisPart(more) == RedisPart(served) && MemoryPart(more) == MemoryPart(served) + [at]
            && LetThrough(limit, more, from) - LetThrough(limit, served, from) ==
               Admitted(limit, MemoryPart(served) + [at], from) - Admitted(limit, MemoryPart(served), from)
  {
    var more, memory := served + [InMemory(at)], MemoryPart(served) + [at];
    assert more[..|more| - 1] == served && memory[..|memory| - 1] == MemoryPart(served);
  }

  /** Without lost replies every request counts on one side only, and all that are admitted there get through. */
  ghost predicate ServedExactly(limit: nat, times: seq<nat>, requests: seq<Request>, from: nat) {
    var served := MemoryThenRedis(times, requests);
    && RedisPart(served) == requests && MemoryPart(served) == times
    && LetThrough(limit, served, from) == RedisAdmitted(limit, requests, from) + Admitted(limit, times, from)
  }

  lemma {:induction false} LetThroughExact(limit: nat, times: seq<nat>, requests: seq<Request>, from: nat)
    ensures ServedExactly(limit, times, requests, from)
    decreases |times| + |requests|
  {
    if requests != [] {
      var m := |requests| - 1;
      LetThroughExact(limit, times, requests[..m], from);
      LastByRedis(limit, times, requests[..m], requests[m], from);
      assert requests == requests[..m] + [requests[m]];
    } else if times != [] {
      var m := |times| - 1;
      LetThroughExact(limit, times[..m], [], from);
      LastInMemory(limit, times[..m], times[m], from);
      assert times == times[..m] + [times[m]];
    }
  }

  lemma LastByRedis(limit: nat, times: seq<nat>, requests: seq<Request>, r: Request, from: nat)
    requires ServedExactly(limit, times, requests, from)
    ensures ServedExactly(limit, times, requests + [r], from)
  {
    assert MemoryThenRedis(times, requests + [r]) == MemoryThenRedis(times, requests) + [ByRedis(r)];
    OneMoreByRedis(limit, MemoryThenRedis(times, requests), r, from);
  }

  lemma LastInMemory(limit: nat, times: seq<nat>, at: nat, from: nat)
    requires ServedExactly(limit, times, [], from)
    ensures ServedExactly(limit, times + [at], [], from)
  {
    assert MemoryThenRedis(times + [at], []) == MemoryThenRedis(times, []) + [InMemory(at)];
    OneMoreInMemory(limit, MemoryThenRedis(times, []), at, from);
  }

  lemma ServedInOrder(times: seq<nat>, requests: seq<Request>)
    requires Monotone(times) && InOrder(requests)
    requires forall i, j :: 0 <= i < |times| && 0 <= j < |requests| ==> times[i] <= requests[j].at
    ensures ServedMonotone(MemoryThenRedis(times, requests))
  {
  }

  /** The busiest requests of the two limiters, Redis coming up within the interval. */
  function BusiestServed(limit: nat): seq<Served>
    requires limit > 0
  {
    MemoryThenRedis(BusiestTimes(limit), BusiestRequests(limit))
  }

  /** The middleware's bound is attained too. */
  lemma MiddlewareBoundAttained(limit: nat)
    requires limit > 0
    ensures ServedMonotone(BusiestServed(limit)) && LetThrough(limit, BusiestServed(limit), MINUTE) == 4 * limit - 1
  {
    InMemoryBoundAttained(limit);
    RedisBoundAttained(limit);
    ServedInOrder(BusiestTimes(limit), BusiestRequests(limit));
    LetThroughExact(limit, BusiestTimes(limit), BusiestRequests(limit), MINUTE);
  }
}
