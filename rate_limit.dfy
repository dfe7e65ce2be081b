/** The rate limiters of the HTTP middleware: a token bucket per key, refilled
    to capacity once a window has passed, and a sliding window per key that
    keeps the request times of the last window. Both sweep idle keys at most
    once per cleanup interval. Times and durations are integer nanoseconds and
    the clock is the `now` parameter of each call. */
module RateLimit {
  import opened Wrappers

  /** `5 * time.Minute`, the cleanup interval of both limiters. */
  const CleanupInterval: int := 300_000_000_000

  /** The panic of both constructors. */
  datatype Panic = ClockRequired

  /** `cleanupIfNeededLocked` is due: a cleanup happened before and at least
      the interval has passed since. The first call only records the time. */
  predicate CleanupDue(lastCleanupAt: Option<int>, now: int, interval: int) {
    lastCleanupAt.Some? && !(interval > now - lastCleanupAt.value)
  }

  /** The time of the last cleanup after a call at `now`. */
  function CleanupTime(lastCleanupAt: Option<int>, now: int, interval: int): Option<int> {
    if lastCleanupAt.None? || CleanupDue(lastCleanupAt, now, interval) then Some(now) else lastCleanupAt
  }

  // ---------------------------------------------------------------------------
  // Token bucket

  /** `tokenBucket`. */
  datatype Bucket = Bucket(tokens: int, lastRefill: int)

  /** A bucket survives a sweep unless it was refilled more than two windows ago. */
  predicate BucketKept(bucket: Bucket, window: int, now: int) {
    !(window * 2 < now - bucket.lastRefill)
  }

  function SweptBuckets(buckets: map<string, Bucket>, window: int, now: int): map<string, Bucket> {
    map k | k in buckets && BucketKept(buckets[k], window, now) :: buckets[k]
  }

  /** The buckets after `cleanupIfNeededLocked` at `now`. */
  function CleanedBuckets(buckets: map<string, Bucket>, lastCleanupAt: Option<int>, now: int, window: int, interval: int): map<string, Bucket> {
    if CleanupDue(lastCleanupAt, now, interval) then SweptBuckets(buckets, window, now) else buckets
  }

  /** One request on a key's bucket (None when the key has none): a new
      bucket is full; a window after the last refill it is full again; a
      token is taken when there is one. */
  function TakeToken(bucket: Option<Bucket>, capacity: int, window: int, now: int): (r: (Bucket, bool))
    ensures var current := if bucket.None? || window <= now - bucket.value.lastRefill then Bucket(capacity, now) else bucket.value;
      (r.1 <==> 0 < current.tokens)
      && r.0 == (if r.1 then current.(tokens := current.tokens - 1) else current)
  {
    var created := if bucket.None? then Bucket(capacity, now) else bucket.value;
    var current := if window <= now - created.lastRefill then Bucket(capacity, now) else created;
    if 0 < current.tokens then (current.(tokens := current.tokens - 1), true) else (current, false)
  }

  function Min(a: int, b: int): int {
    if a < b then a else b
  }

  function Max(a: int, b: int): int {
    if a < b then b else a
  }

  /** A bucket holds at most the capacity, and is negative only as far as a
      negative capacity makes it. */
  predicate BucketBounded(bucket: Bucket, capacity: int) {
    Min(capacity, 0) <= bucket.tokens <= capacity
  }

  /** A request keeps a bucket within its bounds. */
  lemma TakeTokenBounded(bucket: Option<Bucket>, capacity: int, window: int, now: int)
    requires bucket.Some? ==> BucketBounded(bucket.value, capacity)
    ensures BucketBounded(TakeToken(bucket, capacity, window, now).0, capacity)
  {
  }

  /** A key's first request finds a full bucket: with a positive rate it is
      allowed and leaves one token fewer than the capacity. */
  lemma FirstRequestAllowed(capacity: int, window: int, now: int)
    ensures TakeToken(None, capacity, window, now) ==
      if 0 < capacity then (Bucket(capacity - 1, now), true) else (Bucket(capacity, now), false)
  {
  }

  /** Requests on one bucket at the given times: the bucket after them and
      how many were allowed. */
  function Burst(bucket: Bucket, capacity: int, window: int, times: seq<int>): (Bucket, nat)
    decreases |times|
  {
    if times == [] then (bucket, 0)
    else
      var step := TakeToken(Some(bucket), capacity, window, times[0]);
      var rest := Burst(step.0, capacity, window, times[1..]);
      (rest.0, rest.1 + if step.1 then 1 else 0)
  }

  /** Before the window since the last refill has passed, a bucket allows at
      most as many requests as it has tokens, and loses one token for each. */
  lemma {:induction false} BurstBounded(bucket: Bucket, capacity: int, window: int, times: seq<int>)
    requires forall k | 0 <= k < |times| :: times[k] - bucket.lastRefill < window
    ensures Burst(bucket, capacity, window, times).1 <= Max(bucket.tokens, 0)
    ensures bucket.tokens >= 0 ==> Burst(bucket, capacity, window, times).0 == bucket.(tokens := bucket.tokens - Burst(bucket, capacity, window, times).1)
    decreases |times|
  {
    if times != [] {
      var step := TakeToken(Some(bucket), capacity, window, times[0]);
      assert step.0.lastRefill == bucket.lastRefill;
      BurstBounded(step.0, capacity, window, times[1..]);
    }
  }

  /** A new key allows at most `rate` requests within the window after its
      first request. */
  lemma FreshKeyLimited(capacity: int, window: int, first: int, times: seq<int>)
    requires forall k | 0 <= k < |times| :: times[k] - first < window
    ensures var start := TakeToken(None, capacity, window, first);
      (if start.1 then 1 else 0) + Burst(start.0, capacity, window, times).1 <= Max(capacity, 0)
  {
    var start := TakeToken(None, capacity, window, first);
    BurstBounded(start.0, capacity, window, times);
  }

  /** `TokenBucketLimiter`; `rate` is also the capacity. */
  class TokenBucketLimiter {
    var buckets: map<string, Bucket>
    var lastCleanupAt: Option<int>
    const rate: int
    const window: int
    const capacity: int
    const cleanupInterval: int

    ghost predicate Valid()
      reads this
    {
      forall k | k in buckets :: BucketBounded(buckets[k], capacity)
    }

    constructor (rate: int, window: int)
      ensures this.rate == rate && this.window == window && capacity == rate && cleanupInterval == CleanupInterval
      ensures buckets == map[] && lastCleanupAt == None && Valid()
    {
      this.rate := rate;
      this.window := window;
      capacity := rate;
      cleanupInterval := CleanupInterval;
      buckets := map[];
      lastCleanupAt := None;
    }

    /** `cleanupIfNeededLocked`: the first call records the time; later
        calls, once the interval has passed, drop the buckets idle for more
        than two windows. */
    method CleanupIfNeeded(now: int)
      requires Valid()
      modifies this
      ensures Valid()
      ensures buckets == CleanedBuckets(old(buckets), old(lastCleanupAt), now, window, cleanupInterval)
      ensures lastCleanupAt == CleanupTime(old(lastCleanupAt), now, cleanupInterval)
    {
      if lastCleanupAt.None? {
        lastCleanupAt := Some(now);
        return;
      }
      if cleanupInterval > now - lastCleanupAt.value {
        return;
      }
      ghost var start := buckets;
      var remaining := buckets.Keys;
      while remaining != {}
        invariant remaining <= start.Keys
        invariant forall k :: k in buckets <==> k in start && (k in remaining || BucketKept(start[k], window, now))
        invariant forall k | k in buckets :: buckets[k] == start[k]
        decreases |remaining|
      {
        var key :| key in remaining;
        if window * 2 < now - buckets[key].lastRefill {
          buckets := buckets - {key};
        }
        remaining := remaining - {key};
      }
      lastCleanupAt := Some(now);
    }

    /** `Allow`: the cleanup, then one request on the key's bucket. */
    method Allow(key: string, now: int) returns (allowed: bool)
      requires Valid()
      modifies this
      ensures Valid()
      ensures var swept := CleanedBuckets(old(buckets), old(lastCleanupAt), now, window, cleanupInterval);
        var step := TakeToken(if key in swept then Some(swept[key]) else None, capacity, window, now);
        buckets == swept[key := step.0] && allowed == step.1
      ensures lastCleanupAt == CleanupTime(old(lastCleanupAt), now, cleanupInterval)
    {
      CleanupIfNeeded(now);
      var bucket := if key in buckets then buckets[key] else Bucket(capacity, now);
      if window <= now - bucket.lastRefill {
        bucket := Bucket(capacity, now);
      }
      allowed := false;
      if 0 < bucket.tokens {
        bucket := bucket.(tokens := bucket.tokens - 1);
        allowed := true;
      }
      buckets := buckets[key := bucket];
    }

    /** `Reset`: only the key's bucket is dropped. */
    method Reset(key: string)
      requires Valid()
      modifies this
      ensures Valid()
      ensures buckets == old(buckets) - {key} && lastCleanupAt == old(lastCleanupAt)
    {
      buckets := buckets - {key};
    }
  }

  /** `NewTokenBucketLimiterWithClock`: a nil clock panics. */
  method NewTokenBucketLimiter(clock: Option<nat>, rate: int, window: int) returns (r: Result<TokenBucketLimiter, Panic>)
    ensures clock.None? <==> r.Err?
    ensures r.Ok? ==>
      fresh(r.value) && r.value.Valid() && r.value.buckets == map[] && r.value.capacity == rate
      && r.value.window == window && r.value.lastCleanupAt == None && r.value.cleanupInterval == CleanupInterval
  {
    if clock.None? {
      return Err(ClockRequired);
    }
    var limiter := new TokenBucketLimiter(rate, window);
    return Ok(limiter);
  }

  /** A sweep drops a bucket only when it is due and the bucket has been
      idle for more than two windows; kept buckets are unchanged. */
  lemma CleanupKeepsRecent(buckets: map<string, Bucket>, lastCleanupAt: Option<int>, now: int, window: int, interval: int)
    ensures var r := CleanedBuckets(buckets, lastCleanupAt, now, window, interval);
      (forall k | k in r :: k in buckets && r[k] == buckets[k])
      && (forall k | k in buckets && k !in r :: CleanupDue(lastCleanupAt, now, interval) && window * 2 < now - buckets[k].lastRefill)
      && (forall k | k in buckets && now - buckets[k].lastRefill <= window * 2 :: k in r)
  {
  }

  /** Cleanups run at most once per interval: one that drops a bucket
      happens an interval or more after the last, and records its time. */
  lemma CleanupAtMostOncePerInterval(buckets: map<string, Bucket>, lastCleanupAt: Option<int>, now: int, window: int, interval: int)
    requires CleanedBuckets(buckets, lastCleanupAt, now, window, interval) != buckets
    ensures lastCleanupAt.Some? && now - lastCleanupAt.value >= interval
    ensures CleanupTime(lastCleanupAt, now, interval) == Some(now)
  {
  }

  // ---------------------------------------------------------------------------
  // Sliding window

  /** The request times after `windowStart`, in order. */
  function After(requests: seq<int>, windowStart: int): (r: seq<int>)
    ensures |r| <= |requests|
    ensures forall t :: t in r <==> t in requests && t > windowStart
    decreases |requests|
  {
    if requests == [] then []
    else
      var init := requests[..|requests| - 1];
      var last := requests[|requests| - 1];
      assert requests == init + [last];
      After(init, windowStart) + if last > windowStart then [last] else []
  }

  /** Filtering by a later start after an earlier one is filtering by the later. */
  lemma {:induction false} AfterAfter(requests: seq<int>, earlier: int, later: int)
    requires earlier <= later
    ensures After(After(requests, earlier), later) == After(requests, later)
    decreases |requests|
  {
    if requests != [] {
      var init := requests[..|requests| - 1];
      var last := requests[|requests| - 1];
      AfterAfter(init, earlier, later);
      assert requests == init + [last];
      AfterSnoc(init, last, earlier);
      AfterSnoc(init, last, later);
      var first := After(init, earlier);
      if last > earlier {
        AfterSnoc(first, last, later);
      } else {
        assert After(requests, earlier) == first;
        assert After(requests, later) == After(init, later) + [];
      }
    }
  }

  lemma AfterSnoc(requests: seq<int>, t: int, windowStart: int)
    ensures After(requests + [t], windowStart) == After(requests, windowStart) + if t > windowStart then [t] else []
  {
    assert (requests + [t])[..|requests + [t]| - 1] == requests;
  }

  /** One request on a key's window (None when the key has none): the times
      of the last window are kept, and the request is allowed and recorded
      while there are fewer than `limit` of them. */
  function Admit(requests: Option<seq<int>>, limit: int, window: int, now: int): (r: (seq<int>, bool))
    ensures var valid := After(requests.GetOr([]), now - window);
      (r.1 <==> limit > |valid|) && r.0 == (if r.1 then valid + [now] else valid)
  {
    var valid := After(requests.GetOr([]), now - window);
    if limit > |valid| then (valid + [now], true) else (valid, false)
  }

  /** A window survives a sweep when it has a request and its last request
      is at most two windows old. */
  predicate WindowKept(requests: seq<int>, window: int, now: int) {
    requests != [] && !(window * 2 < now - requests[|requests| - 1])
  }

  function SweptWindows(windows: map<string, seq<int>>, window: int, now: int): map<string, seq<int>> {
    map k | k in windows && WindowKept(windows[k], window, now) :: windows[k]
  }

  function CleanedWindows(windows: map<string, seq<int>>, lastCleanupAt: Option<int>, now: int, window: int, interval: int): map<string, seq<int>> {
    if CleanupDue(lastCleanupAt, now, interval) then SweptWindows(windows, window, now) else windows
  }

  /** Requests at the given times on one key: the stored window and the
      times allowed. */
  function Trace(limit: int, window: int, times: seq<int>): (seq<int>, seq<int>)
    decreases |times|
  {
    if times == [] then ([], [])
    else
      var before := Trace(limit, window, times[..|times| - 1]);
      var now := times[|times| - 1];
      var step := Admit(Some(before.0), limit, window, now);
      (step.0, before.1 + if step.1 then [now] else [])
  }

  predicate Nondecreasing(times: seq<int>) {
    forall i, j | 0 <= i < j < |times| :: times[i] <= times[j]
  }

  /** With a positive window and a clock that does not go back, a key's
      stored window is exactly its allowed requests of the last window, and
      after each request at most `limit` allowed requests lie in the window
      ending at it. */
  lemma {:induction false} TraceWindow(limit: int, window: int, times: seq<int>)
    requires window > 0 && Nondecreasing(times) && times != []
    ensures var r := Trace(limit, window, times);
      var now := times[|times| - 1];
      r.0 == After(r.1, now - window) && |After(r.1, now - window)| <= Max(limit, 0)
    decreases |times|
  {
    var init := times[..|times| - 1];
    var now := times[|times| - 1];
    var before := Trace(limit, window, init);
    if init == [] {
      assert before == ([], []);
    } else {
      NondecreasingPrefix(times);
      TraceWindow(limit, window, init);
      WindowMoves(before, init[|init| - 1], now, window, limit);
    }
    TraceStep(limit, window, before, now);
  }

  lemma NondecreasingPrefix(times: seq<int>)
    requires Nondecreasing(times) && |times| >= 2
    ensures Nondecreasing(times[..|times| - 1]) && times[|times| - 2] <= times[|times| - 1]
  {
    var init := times[..|times| - 1];
    forall i, j | 0 <= i < j < |init| ensures init[i] <= init[j] {
      assert init[i] == times[i] && init[j] == times[j];
    }
  }

  /** Moving the window forward keeps it the allowed requests of the window. */
  lemma WindowMoves(before: (seq<int>, seq<int>), previous: int, now: int, window: int, limit: int)
    requires previous <= now
    requires before.0 == After(before.1, previous - window) && |before.0| <= Max(limit, 0)
    ensures After(before.0, now - window) == After(before.1, now - window)
    ensures |After(before.0, now - window)| <= Max(limit, 0)
  {
    AfterAfter(before.1, previous - window, now - window);
  }

  lemma TraceStep(limit: int, window: int, before: (seq<int>, seq<int>), now: int)
    requires window > 0
    requires After(before.0, now - window) == After(before.1, now - window)
    requires |After(before.0, now - window)| <= Max(limit, 0)
    ensures var step := Admit(Some(before.0), limit, window, now);
      var allowed := before.1 + if step.1 then [now] else [];
      step.0 == After(allowed, now - window) && |After(allowed, now - window)| <= Max(limit, 0)
  {
    AfterSnoc(before.1, now, now - window);
    var step := Admit(Some(before.0), limit, window, now);
    if !step.1 {
      assert before.1 + [] == before.1;
    }
  }

  /** `SlidingWindowLimiter`. */
  class SlidingWindowLimiter {
    var windows: map<string, seq<int>>
    var lastCleanupAt: Option<int>
    const limit: int
    const window: int
    const cleanupInterval: int

    /** A stored window never holds more than `limit` requests. */
    ghost predicate Valid()
      reads this
    {
      forall k | k in windows :: |windows[k]| <= Max(limit, 0)
    }

    constructor (limit: int, window: int)
      ensures this.limit == limit && this.window == window && cleanupInterval == CleanupInterval
      ensures windows == map[] && lastCleanupAt == None && Valid()
    {
      this.limit := limit;
      this.window := window;
      cleanupInterval := CleanupInterval;
      windows := map[];
      lastCleanupAt := None;
    }

    /** `cleanupIfNeededLocked`: the first call records the time; later
        calls, once the interval has passed, drop the empty windows and
        those whose last request is more than two windows old. */
    method CleanupIfNeeded(now: int)
      requires Valid()
      modifies this
      ensures Valid()
      ensures windows == CleanedWindows(old(windows), old(lastCleanupAt), now, window, cleanupInterval)
      ensures lastCleanupAt == CleanupTime(old(lastCleanupAt), now, cleanupInterval)
    {
      if lastCleanupAt.None? {
        lastCleanupAt := Some(now);
        return;
      }
      if cleanupInterval > now - lastCleanupAt.value {
        return;
      }
      ghost var start := windows;
      var remaining := windows.Keys;
      while remaining != {}
        invariant remaining <= start.Keys
        invariant forall k :: k in windows <==> k in start && (k in remaining || WindowKept(start[k], window, now))
        invariant forall k | k in windows :: windows[k] == start[k]
        decreases |remaining|
      {
        var key :| key in remaining;
        var requests := windows[key];
        if |requests| == 0 {
          windows := windows - {key};
        } else if window * 2 < now - requests[|requests| - 1] {
          windows := windows - {key};
        }
        remaining := remaining - {key};
      }
      lastCleanupAt := Some(now);
    }

    /** `Allow`: the cleanup, then the key's window keeps the requests after
        `now - window`, and the request is recorded when fewer than `limit`
        remain. */
    method Allow(key: string, now: int) returns (allowed: bool)
      requires Valid()
      modifies this
      ensures Valid()
      ensures var swept := CleanedWindows(old(windows), old(lastCleanupAt), now, window, cleanupInterval);
        var step := Admit(if key in swept then Some(swept[key]) else None, limit, window, now);
        windows == swept[key := step.0] && allowed == step.1
      ensures lastCleanupAt == CleanupTime(old(lastCleanupAt), now, cleanupInterval)
    {
      CleanupIfNeeded(now);
      var windowStart := now - window;
      var requests := if key in windows then windows[key] else [];
      var validRequests := KeepAfter(requests, windowStart);
      if limit > |validRequests| {
        windows := windows[key := validRequests + [now]];
        return true;
      }
      windows := windows[key := validRequests];
      return false;
    }

    /** `Reset`: only the key's window is dropped. */
    method Reset(key: string)
      requires Valid()
      modifies this
      ensures Valid()
      ensures windows == old(windows) - {key} && lastCleanupAt == old(lastCleanupAt)
    {
      windows := windows - {key};
    }
  }

  /** The filter loop of the sliding window's `Allow`. */
  method KeepAfter(requests: seq<int>, windowStart: int) returns (valid: seq<int>)
    ensures valid == After(requests, windowStart)
  {
    valid := [];
    var i := 0;
    while i < |requests|
      invariant 0 <= i <= |requests|
      invariant valid == After(requests[..i], windowStart)
    {
      assert requests[..i + 1][..i] == requests[..i];
      if requests[i] > windowStart {
        valid := valid + [requests[i]];
      }
      i := i + 1;
    }
    assert requests[..i] == requests;
  }

  /** `NewSlidingWindowLimiterWithClock`: a nil clock panics. */
  method NewSlidingWindowLimiter(clock: Option<nat>, limit: int, window: int) returns (r: Result<SlidingWindowLimiter, Panic>)
    ensures clock.None? <==> r.Err?
    ensures r.Ok? ==>
      fresh(r.value) && r.value.Valid() && r.value.windows == map[] && r.value.limit == limit
      && r.value.window == window && r.value.lastCleanupAt == None && r.value.cleanupInterval == CleanupInterval
  {
    if clock.None? {
      return Err(ClockRequired);
    }
    var limiter := new SlidingWindowLimiter(limit, window);
    return Ok(limiter);
  }
}
