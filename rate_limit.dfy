/** The in-memory token-bucket rate limiter of `src/lib/rate-limit.ts`.

    The limiter keeps one bucket per key (a user id or an address). The
    bucket records how many tokens are left and when it was last refilled.
    Every whole window that has passed since the last refill gives back
    `maxRequests` tokens, up to `maxRequests`. A request spends one token
    and is refused when none is left.

    The clock (`Date.now()`) is the parameter `now`, in integer milliseconds.
    JavaScript keeps the bucket as an object that the map owns and that
    `check` changes in place. No reference to it ever leaves the limiter,
    so replacing the map's value is the same change. */
module RateLimit {
  import opened Text

  /** One bucket. */
  datatype Entry = Entry(tokens: int, lastRefill: int)

  /** A limit: `maxRequests` per `windowMs` milliseconds. */
  datatype Config = Config(maxRequests: int, windowMs: int)

  /** What `check` answers. */
  datatype CheckResult = CheckResult(allowed: bool, remaining: int, resetAt: int)

  /** The store after a call together with the call's answer. */
  datatype Outcome = Outcome(store: map<string, Entry>, result: CheckResult)

  /** Entries untouched for longer than this are dropped by the cleanup. */
  const OneHourMs: int := 60 * 60 * 1000

  /** The preset limits, all per fifteen minutes. */
  const FifteenMinutesMs: int := 15 * 60 * 1000
  const General: Config := Config(100, FifteenMinutesMs)
  const Login: Config := Config(5, FifteenMinutesMs)
  const CreateTor: Config := Config(10, FifteenMinutesMs)
  const UpdateTor: Config := Config(50, FifteenMinutesMs)

  /** The presets: 100, 5, 10 and 50 requests, each per 900000 ms. */
  lemma PresetValues()
    ensures General == Config(100, 900000) && Login == Config(5, 900000)
    ensures CreateTor == Config(10, 900000) && UpdateTor == Config(50, 900000)
    ensures forall c :: c in {General, Login, CreateTor, UpdateTor} ==> c.maxRequests >= 1 && c.windowMs > 0
  {
  }

  function Min(a: int, b: int): int {
    if a <= b then a else b
  }

  /** `Math.floor(timePassed / windowMs) * maxRequests`. For a positive
      divisor, Dafny's `/` rounds toward negative infinity, as `Math.floor`
      of the quotient does. */
  function TokensToAdd(e: Entry, c: Config, now: int): int
    requires c.windowMs > 0
  {
    ((now - e.lastRefill) / c.windowMs) * c.maxRequests
  }

  /** The refill step of `check` on an existing bucket. When tokens are due
      the bucket is topped up (never above `maxRequests`) and stamped with
      `now`; otherwise it is left exactly as it was. */
  function Refill(e: Entry, c: Config, now: int): (r: Entry)
    requires c.windowMs > 0
    ensures r == e || r.lastRefill == now
    ensures r != e ==> r.tokens <= c.maxRequests
  {
    var add := TokensToAdd(e, c, now);
    if add > 0 then Entry(Min(c.maxRequests, e.tokens + add), now) else e
  }

  /** Tokens are due exactly when at least one whole window has passed and
      the limit is positive, or when the clock went backwards and the limit
      is negative (the floor of the quotient and the limit are then both
      negative). */
  lemma RefillFires(e: Entry, c: Config, now: int)
    requires c.windowMs > 0
    ensures TokensToAdd(e, c, now) > 0 <==>
              (now - e.lastRefill >= c.windowMs && c.maxRequests > 0) ||
              (now < e.lastRefill && c.maxRequests < 0)
  {
    FloorQuotientSign(now - e.lastRefill, c.windowMs);
    ProductPositive((now - e.lastRefill) / c.windowMs, c.maxRequests);
  }

  /** The floor of `d / w` is at least one exactly when `d >= w`, and
      negative exactly when `d` is. */
  lemma FloorQuotientSign(d: int, w: int)
    requires w > 0
    ensures d / w >= 1 <==> d >= w
    ensures d / w < 0 <==> d < 0
  {
    var q, r := d / w, d % w;
    assert d == q * w + r && 0 <= r < w;
    if q >= 1 { MulAtLeast(w, q); assert q * w == w * q; }
    if q <= -1 { MulAtLeast(w, -q); assert -q * w == w * -q; }
  }

  /** The sign rule of a product. */
  lemma ProductPositive(q: int, m: int)
    ensures q * m > 0 <==> (q > 0 && m > 0) || (q < 0 && m < 0)
  {
    if q > 0 && m < 0 { assert q * m == -(q * -m); }
    if q < 0 && m > 0 { assert q * m == -(-q * m); }
    if q < 0 && m < 0 { assert q * m == (-q) * (-m); }
  }

  /** One call of `check(key, config)` at time `now`, on the map's value. */
  function CheckStep(store: map<string, Entry>, key: string, c: Config, now: int): (o: Outcome)
    requires c.windowMs > 0
    ensures key in o.store
    ensures forall k :: k != key ==> (k in o.store <==> k in store)
    ensures forall k :: k != key && k in store ==> o.store[k] == store[k]
    ensures o.result.resetAt == o.store[key].lastRefill + c.windowMs
    ensures o.result.allowed ==> o.result.remaining == o.store[key].tokens
    ensures !o.result.allowed ==> o.result.remaining == 0
  {
    if key !in store then
      Outcome(store[key := Entry(c.maxRequests - 1, now)],
              CheckResult(true, c.maxRequests - 1, now + c.windowMs))
    else
      var e := Refill(store[key], c, now);
      if e.tokens > 0 then
        var spent := e.(tokens := e.tokens - 1);
        Outcome(store[key := spent], CheckResult(true, spent.tokens, spent.lastRefill + c.windowMs))
      else
        Outcome(store[key := e], CheckResult(false, 0, e.lastRefill + c.windowMs))
  }

  /** The first request of an unseen key is let through: it spends one of
      `maxRequests` tokens, and its window starts now. */
  lemma FirstCheckAllowed(store: map<string, Entry>, key: string, c: Config, now: int)
    requires c.windowMs > 0 && key !in store
    ensures CheckStep(store, key, c, now).result == CheckResult(true, c.maxRequests - 1, now + c.windowMs)
    ensures CheckStep(store, key, c, now).store[key] == Entry(c.maxRequests - 1, now)
  {
  }

  /** On a known key the request is allowed exactly when the refilled bucket
      holds a token; an allowed request spends exactly one, and a refused one
      spends none but keeps the refill. */
  lemma KnownKeyCheck(store: map<string, Entry>, key: string, c: Config, now: int)
    requires c.windowMs > 0 && key in store
    ensures var o, e := CheckStep(store, key, c, now), Refill(store[key], c, now);
      && (o.result.allowed <==> e.tokens > 0)
      && o.store[key] == (if e.tokens > 0 then e.(tokens := e.tokens - 1) else e)
      && o.result.resetAt == e.lastRefill + c.windowMs
  {
  }

  /** The bucket invariant: with one limit of at least one request per key,
      a bucket always holds between 0 and `maxRequests` tokens. */
  predicate InRange(store: map<string, Entry>, key: string, c: Config) {
    key in store ==> 0 <= store[key].tokens <= c.maxRequests
  }

  /** `check` keeps the bucket invariant, on its own key and every other. */
  lemma CheckKeepsRange(store: map<string, Entry>, key: string, c: Config, now: int, other: string)
    requires c.windowMs > 0 && c.maxRequests >= 1
    requires InRange(store, key, c) && InRange(store, other, c)
    ensures InRange(CheckStep(store, key, c, now).store, other, c)
  {
    if other == key && key in store {
      var e := store[key];
      var add := TokensToAdd(e, c, now);
      if add > 0 {
        assert Refill(e, c, now).tokens >= 0;
      }
    }
  }

  /** The number of requests allowed out of `n` made at the same instant. */
  function AllowedOf(store: map<string, Entry>, key: string, c: Config, now: int, n: nat): nat
    requires c.windowMs > 0
    decreases n
  {
    if n == 0 then 0
    else
      var o := CheckStep(store, key, c, now);
      (if o.result.allowed then 1 else 0) + AllowedOf(o.store, key, c, now, n - 1)
  }

  /** Within the instant of its last refill, a bucket of `t` tokens lets
      exactly `t` of a burst of requests through. */
  lemma {:induction false} BurstDrainsBucket(store: map<string, Entry>, key: string, c: Config, now: int, n: nat)
    requires c.windowMs > 0 && c.maxRequests >= 1
    requires key in store && store[key].lastRefill == now && store[key].tokens >= 0
    ensures AllowedOf(store, key, c, now, n) == Min(n, store[key].tokens)
  {
    if n > 0 {
      var e := store[key];
      assert TokensToAdd(e, c, now) == 0;
      var o := CheckStep(store, key, c, now);
      BurstDrainsBucket(o.store, key, c, now, n - 1);
    }
  }

  /** A burst from an unseen key: exactly `maxRequests` requests get through. */
  lemma FreshBurst(store: map<string, Entry>, key: string, c: Config, now: int, n: nat)
    requires c.windowMs > 0 && c.maxRequests >= 1 && key !in store
    ensures AllowedOf(store, key, c, now, n) == Min(n, c.maxRequests)
  {
    if n > 0 {
      BurstDrainsBucket(CheckStep(store, key, c, now).store, key, c, now, n - 1);
    }
  }

  /** What the hourly cleanup leaves: the entries refilled no earlier than an
      hour before `now`, unchanged. */
  function Cleaned(store: map<string, Entry>, now: int): (r: map<string, Entry>)
    ensures r.Keys <= store.Keys
    ensures forall k :: k in r ==> r[k] == store[k]
  {
    map k | k in store && store[k].lastRefill >= now - OneHourMs :: store[k]
  }

  /** A key survives the cleanup exactly when it was refilled within the
      hour, and the cleanup is idempotent. */
  lemma CleanedKeeps(store: map<string, Entry>, now: int, key: string)
    ensures key in Cleaned(store, now) <==> key in store && store[key].lastRefill >= now - OneHourMs
    ensures Cleaned(Cleaned(store, now), now) == Cleaned(store, now)
  {
  }

  class RateLimiter {
    var store: map<string, Entry>

    /** A new limiter has no buckets. The five-minute cleanup timer is not
        modelled. */
    constructor()
      ensures store == map[]
    {
      store := map[];
    }

    /** `check(key, config)` at time `now`. */
    method Check(key: string, config: Config, now: int) returns (r: CheckResult)
      requires config.windowMs > 0
      modifies this
      ensures store == CheckStep(old(store), key, config, now).store
      ensures r == CheckStep(old(store), key, config, now).result
    {
      if key !in store {
        var entry := Entry(config.maxRequests - 1, now);
        store := store[key := entry];
        return CheckResult(true, entry.tokens, now + config.windowMs);
      }
      var entry := store[key];
      var timePassed := now - entry.lastRefill;
      var tokensToAdd := (timePassed / config.windowMs) * config.maxRequests;
      if tokensToAdd > 0 {
        entry := entry.(tokens := Min(config.maxRequests, entry.tokens + tokensToAdd), lastRefill := now);
        store := store[key := entry];
      }
      if entry.tokens > 0 {
        entry := entry.(tokens := entry.tokens - 1);
        store := store[key := entry];
        return CheckResult(true, entry.tokens, entry.lastRefill + config.windowMs);
      }
      return CheckResult(false, 0, entry.lastRefill + config.windowMs);
    }

    /** `cleanup()` at time `now`: deletes, one key at a time, every entry
        last refilled more than an hour ago. */
    method Cleanup(now: int)
      modifies this
      ensures store == Cleaned(old(store), now)
    {
      var oneHourAgo := now - OneHourMs;
      var keys := store.Keys;
      while keys != {}
        invariant keys <= old(store).Keys
        invariant forall k :: k in store <==>
                    k in old(store) && (k in keys || old(store)[k].lastRefill >= oneHourAgo)
        invariant forall k :: k in store ==> store[k] == old(store)[k]
        decreases keys
      {
        var k :| k in keys;
        if store[k].lastRefill < oneHourAgo {
          store := store - {k};
        }
        keys := keys - {k};
      }
    }

    /** `reset()`: forget every bucket. */
    method Reset()
      modifies this
      ensures store == map[]
    {
      store := map[];
    }
  }
}
