/** The fixed-window rate limiter, bucket by bucket, over whole traces of checks
    (crates/peryx-driver/src/rate_limit.rs). Instants count nanoseconds. */
module RateLimit {
  import opened Common

  datatype RouteClass = Listing | Metadata | Artifact | Upload | Admin
  datatype Actor = Ip(address: nat) | Token(hash: nat)
  datatype BucketKey = BucketKey(route: RouteClass, actor: Actor)
  datatype RouteLimit = RouteLimit(requests: nat, windowSecs: nat)
  datatype Window = Window(resetAt: int, used: nat)

  const NANOS := 1_000_000_000

  type Config = RouteClass -> RouteLimit

  /** One counter per route class. */
  datatype RouteCounters = RouteCounters(listing: nat, metadata: nat, artifact: nat, upload: nat, admin: nat) {
    function Get(route: RouteClass): nat {
      match route
      case Listing => listing
      case Metadata => metadata
      case Artifact => artifact
      case Upload => upload
      case Admin => admin
    }

    function Increment(route: RouteClass): (r: RouteCounters)
      ensures forall c :: r.Get(c) == Get(c) + if c == route then 1 else 0
    {
      match route
      case Listing => this.(listing := listing + 1)
      case Metadata => this.(metadata := metadata + 1)
      case Artifact => this.(artifact := artifact + 1)
      case Upload => this.(upload := upload + 1)
      case Admin => this.(admin := admin + 1)
    }
  }

  const ZERO := RouteCounters(0, 0, 0, 0, 0)

  datatype Limiter = Limiter(buckets: map<BucketKey, Window>, allowed: RouteCounters, denied: RouteCounters)
  datatype Verdict = Admitted | Limited(retryAfter: nat)

  function Length(limit: RouteLimit): nat { limit.windowSecs * NANOS }

  /** The bucket a check sees: created on first use, reset once its window has passed. */
  function Current(l: Limiter, key: BucketKey, limit: RouteLimit, now: int): Window {
    if key in l.buckets && now < l.buckets[key].resetAt then l.buckets[key] else Window(now + Length(limit), 0)
  }

  function Check(config: Config, l: Limiter, key: BucketKey, now: int): (Limiter, Verdict) {
    var limit := config(key.route);
    if limit.requests == 0 || limit.windowSecs == 0 then (l.(allowed := l.allowed.Increment(key.route)), Admitted)
    else
      var window := Current(l, key, limit, now);
      if window.used < limit.requests then
        (Limiter(l.buckets[key := window.(used := window.used + 1)], l.allowed.Increment(key.route), l.denied), Admitted)
      else
        var wait := (window.resetAt - now) / NANOS;
        (Limiter(l.buckets[key := window], l.allowed, l.denied.Increment(key.route)), Limited(if wait < 1 then 1 else wait))
  }

  class RateLimiter {
    const config: Config
    var buckets: map<BucketKey, Window>
    var allowed: RouteCounters
    var denied: RouteCounters

    function View(): Limiter
      reads this
    {
      Limiter(buckets, allowed, denied)
    }

    constructor (config: Config)
      ensures this.config == config && View() == Limiter(map[], ZERO, ZERO)
    {
      this.config := config;
      buckets, allowed, denied := map[], ZERO, ZERO;
    }

    method CheckRequest(key: BucketKey, now: int) returns (verdict: Verdict)
      modifies this
      ensures (View(), verdict) == Check(config, old(View()), key, now)
    {
      var limit := config(key.route);
      if limit.requests == 0 || limit.windowSecs == 0 {
        allowed := allowed.Increment(key.route);
        return Admitted;
      }
      var window := limit.windowSecs * NANOS;
      var bucket := if key in buckets then buckets[key] else Window(now + window, 0);
      if now >= bucket.resetAt { bucket := Window(now + window, 0); }
      if bucket.used < limit.requests {
        buckets := buckets[key := bucket.(used := bucket.used + 1)];
        allowed := allowed.Increment(key.route);
        return Admitted;
      }
      buckets := buckets[key := bucket];
      denied := denied.Increment(key.route);
      var wait := (bucket.resetAt - now) / NANOS;
      verdict := Limited(if wait < 1 then 1 else wait);
    }
  }

  // ----- Traces -----

  datatype Arrival = Arrival(key: BucketKey, now: int)

  function After(config: Config, trace: seq<Arrival>, n: nat): Limiter
    requires n <= |trace|
  {
    if n == 0 then Limiter(map[], ZERO, ZERO)
    else Check(config, After(config, trace, n - 1), trace[n - 1].key, trace[n - 1].now).0
  }

  predicate AdmittedAt(config: Config, trace: seq<Arrival>, i: nat)
    requires i < |trace|
  {
    Check(config, After(config, trace, i), trace[i].key, trace[i].now).1 == Admitted
  }

  /** The checks of one bucket take its lock in the order of their clock readings; other buckets do not matter. */
  ghost predicate InClockOrder(trace: seq<Arrival>, key: BucketKey) {
    forall i, j :: 0 <= i < j < |trace| && trace[i].key == key && trace[j].key == key ==> trace[i].now <= trace[j].now
  }

  /** The clock reading of the bucket's latest check among the first `n`. */
  ghost function LastCheck(trace: seq<Arrival>, key: BucketKey, n: nat): Option<int>
    requires n <= |trace|
  {
    if n == 0 then None else if trace[n - 1].key == key then Some(trace[n - 1].now) else LastCheck(trace, key, n - 1)
  }

  lemma {:induction false} LastCheckIsOne(trace: seq<Arrival>, key: BucketKey, n: nat)
    requires n <= |trace| && LastCheck(trace, key, n).Some?
    ensures exists i :: 0 <= i < n && trace[i].key == key && trace[i].now == LastCheck(trace, key, n).value
    decreases n
  {
    if trace[n - 1].key != key { LastCheckIsOne(trace, key, n - 1); }
  }

  /** Admissions of one bucket in the half-open interval [from, to), among the first `n` checks. */
  function Admissions(config: Config, trace: seq<Arrival>, key: BucketKey, from: int, to: int, n: nat): nat
    requires n <= |trace|
  {
    if n == 0 then 0
    else Admissions(config, trace, key, from, to, n - 1) +
         if trace[n - 1].key == key && from <= trace[n - 1].now < to && AdmittedAt(config, trace, n - 1) then 1 else 0
  }

  ghost predicate Limits(limit: RouteLimit) { limit.requests > 0 && limit.windowSecs > 0 }

  /** What is known of one bucket after `n` checks: its use counts the admissions of the running window, so the interval
      [from, from + length) has seen at most the tail of one window and the head of the next. The check that opens a
      window is itself admitted, which saves one. */
  ghost predicate BucketInv(limit: RouteLimit, bucket: Option<Window>, last: Option<int>, from: int, count: nat) {
    var length := Length(limit);
    && (last.None? || last.value < from ==> count == 0)
    && match bucket
       case None => count == 0
       case Some(w) =>
         var start := w.resetAt - length;
         && last.Some? && start <= last.value && 1 <= w.used <= limit.requests
         && (start < from ==> count <= w.used - 1)
         && (from <= start < from + length ==> count <= limit.requests - 1 + w.used)
         && count <= 2 * limit.requests - 1
  }

  function BucketOf(l: Limiter, key: BucketKey): Option<Window> { if key in l.buckets then Some(l.buckets[key]) else None }

  /** A check touches its own bucket only. */
  lemma CheckTouchesOneBucket(config: Config, l: Limiter, checked: BucketKey, now: int, key: BucketKey)
    requires Limits(config(key.route))
    ensures checked != key ==> BucketOf(Check(config, l, checked, now).0, key) == BucketOf(l, key)
    ensures var limit := config(key.route); var w := Current(l, key, limit, now); var (after, verdict) := Check(config, l, key, now);
      && (verdict == Admitted <==> w.used < limit.requests)
      && BucketOf(after, key) == Some(if w.used < limit.requests then w.(used := w.used + 1) else w)
  {
  }

  ghost predicate HoldsAt(config: Config, trace: seq<Arrival>, key: BucketKey, from: int, n: nat)
    requires n <= |trace|
  {
    var limit := config(key.route);
    BucketInv(limit, BucketOf(After(config, trace, n), key), LastCheck(trace, key, n), from,
              Admissions(config, trace, key, from, from + Length(limit), n))
  }

  lemma OwnCheckHolds(config: Config, trace: seq<Arrival>, key: BucketKey, from: int, n: nat)
    requires n < |trace| && InClockOrder(trace, key) && Limits(config(key.route)) && trace[n].key == key && HoldsAt(config, trace, key, from, n)
    ensures HoldsAt(config, trace, key, from, n + 1)
  {
    var limit, before, last := config(key.route), After(config, trace, n), LastCheck(trace, key, n);
    assert last.Some? ==> last.value <= trace[n].now by { if last.Some? { LastCheckIsOne(trace, key, n); } }
    CheckTouchesOneBucket(config, before, key, trace[n].now, key);
  }

  lemma {:induction false} BucketHolds(config: Config, trace: seq<Arrival>, key: BucketKey, from: int, n: nat)
    requires n <= |trace| && InClockOrder(trace, key) && Limits(config(key.route))
    ensures HoldsAt(config, trace, key, from, n)
    decreases n
  {
    if n > 0 {
      BucketHolds(config, trace, key, from, n - 1);
      if trace[n - 1].key == key {
        OwnCheckHolds(config, trace, key, from, n - 1);
      } else {
        CheckTouchesOneBucket(config, After(config, trace, n - 1), trace[n - 1].key, trace[n - 1].now, key);
      }
    }
  }

  /** Fixed-window bound over whole traces: if a bucket's checks take its lock in clock order, and without eviction, any
      half-open interval of one window length holds at most 2 * requests - 1 admissions of it. */
  lemma WindowBound(config: Config, trace: seq<Arrival>, key: BucketKey, from: int)
    requires InClockOrder(trace, key) && Limits(config(key.route))
    ensures Admissions(config, trace, key, from, from + Length(config(key.route)), |trace|) <= 2 * config(key.route).requests - 1
  {
    BucketHolds(config, trace, key, from, |trace|);
  }

  /** The clock is read before the lock is taken, so checks can arrive out of clock order, and then the bound can be
      exceeded: with two requests a second, these six checks put four admissions into one second. */
  function Overtaken(key: BucketKey): seq<Arrival> {
    [Arrival(key, 0), Arrival(key, NANOS - 1), Arrival(key, NANOS), Arrival(key, NANOS - 1), Arrival(key, 2 * NANOS), Arrival(key, NANOS + 1)]
  }

  lemma OutOfOrderExceedsBound(config: Config, key: BucketKey)
    requires config(key.route) == RouteLimit(2, 1)
    ensures var from := NANOS - 1; var to := from + Length(config(key.route));
      Admissions(config, Overtaken(key), key, from, to, 6) == 4 > 2 * config(key.route).requests - 1
  {
    var trace, limit := Overtaken(key), config(key.route);
    assert Length(limit) == NANOS;
    assert OvertakenAt(config, key, 0);
    OvertakenStep(config, key, 0);
    OvertakenStep(config, key, 1);
    OvertakenStep(config, key, 2);
    OvertakenStep(config, key, 3);
    OvertakenStep(config, key, 4);
    OvertakenStep(config, key, 5);
    var from, to := NANOS - 1, NANOS - 1 + Length(limit);
    assert Admissions(config, trace, key, from, to, 1) == 0;
    assert Admissions(config, trace, key, from, to, 2) == 1;
    assert Admissions(config, trace, key, from, to, 4) == 3;
  }

  /** The bucket before each of those checks. */
  ghost predicate OvertakenAt(config: Config, key: BucketKey, n: nat)
    requires n <= 6
  {
    BucketOf(After(config, Overtaken(key), n), key) ==
      if n == 0 then None else Some(Window(((n + 1) / 2) * NANOS, 2 - n % 2))
  }

  lemma OvertakenStep(config: Config, key: BucketKey, n: nat)
    requires config(key.route) == RouteLimit(2, 1) && n < 6 && OvertakenAt(config, key, n)
    ensures AdmittedAt(config, Overtaken(key), n) && OvertakenAt(config, key, n + 1)
  {
    var trace := Overtaken(key);
    CheckTouchesOneBucket(config, After(config, trace, n), trace[n].key, trace[n].now, key);
  }

  /** The bound is reached: one check opens a window, the rest of its budget is spent just before it ends, and the next
      budget as soon as it has. */
  function Burst(limit: RouteLimit, key: BucketKey): seq<Arrival> {
    seq(2 * limit.requests, i => Arrival(key, if i == 0 then 0 else if i < limit.requests then Length(limit) - 1 else Length(limit)))
  }

  lemma WindowBoundIsTight(config: Config, key: BucketKey)
    requires Limits(config(key.route))
    ensures var limit := config(key.route); var trace := Burst(limit, key); var from := Length(limit) - 1;
      InClockOrder(trace, key) && Admissions(config, trace, key, from, from + Length(limit), |trace|) == 2 * limit.requests - 1
  {
    BurstRuns(config, key, 2 * config(key.route).requests);
  }

  /** The bucket after `n` checks of the burst: the first window fills up, then the second. */
  function BurstBucket(limit: RouteLimit, n: nat): Option<Window> {
    if n == 0 then None
    else if n <= limit.requests then Some(Window(Length(limit), n))
    else Some(Window(2 * Length(limit), n - limit.requests))
  }

  lemma BurstStep(config: Config, l: Limiter, key: BucketKey, n: nat)
    requires Limits(config(key.route)) && n < 2 * config(key.route).requests && BucketOf(l, key) == BurstBucket(config(key.route), n)
    ensures var limit := config(key.route); var (after, verdict) := Check(config, l, key, Burst(limit, key)[n].now);
      verdict == Admitted && BucketOf(after, key) == BurstBucket(limit, n + 1)
  {
    var limit := config(key.route);
    assert Length(limit) >= 1;
    CheckTouchesOneBucket(config, l, key, Burst(limit, key)[n].now, key);
  }

  lemma {:induction false} BurstRuns(config: Config, key: BucketKey, n: nat)
    requires Limits(config(key.route)) && n <= 2 * config(key.route).requests
    ensures var limit := config(key.route); var trace := Burst(limit, key); var from := Length(limit) - 1;
      && Admissions(config, trace, key, from, from + Length(limit), n) == (if n == 0 then 0 else n - 1)
      && BucketOf(After(config, trace, n), key) == BurstBucket(limit, n)
    decreases n
  {
    if n > 0 {
      BurstRuns(config, key, n - 1);
      BurstStep(config, After(config, Burst(config(key.route), key), n - 1), key, n - 1);
    }
  }

  /** A check opens a new window of its bucket. */
  predicate OpensWindow(config: Config, trace: seq<Arrival>, i: nat)
    requires i < |trace|
  {
    var l := After(config, trace, i);
    trace[i].key !in l.buckets || trace[i].now >= l.buckets[trace[i].key].resetAt
  }

  /** Admissions of one bucket among the checks `i` .. `n`. */
  function AdmissionsFrom(config: Config, trace: seq<Arrival>, key: BucketKey, i: nat, n: nat): nat
    requires i <= n <= |trace|
    decreases n
  {
    if i == n then 0
    else AdmissionsFrom(config, trace, key, i, n - 1) + if trace[n - 1].key == key && AdmittedAt(config, trace, n - 1) then 1 else 0
  }

  /** Between two openings of a bucket's window at most `requests` checks are admitted, on any clock. */
  lemma {:induction false} WithinOneWindow(config: Config, trace: seq<Arrival>, key: BucketKey, i: nat, n: nat)
    requires i < n <= |trace| && Limits(config(key.route)) && trace[i].key == key && OpensWindow(config, trace, i)
    requires forall k :: i < k < n && trace[k].key == key ==> !OpensWindow(config, trace, k)
    ensures key in After(config, trace, n).buckets
    ensures AdmissionsFrom(config, trace, key, i, n) == After(config, trace, n).buckets[key].used <= config(key.route).requests
    decreases n
  {
    if i + 1 < n {
      WithinOneWindow(config, trace, key, i, n - 1);
      assert trace[n - 1].key == key ==> !OpensWindow(config, trace, n - 1);
    } else {
      assert AdmissionsFrom(config, trace, key, i, i) == 0;
    }
  }

  /** Checks of one class among the first `n` with this outcome. */
  function ChecksOf(config: Config, trace: seq<Arrival>, route: RouteClass, admitted: bool, n: nat): nat
    requires n <= |trace|
  {
    if n == 0 then 0
    else ChecksOf(config, trace, route, admitted, n - 1) +
         if trace[n - 1].key.route == route && AdmittedAt(config, trace, n - 1) == admitted then 1 else 0
  }

  /** Every check is counted once under its own class: the admitted ones as allowed, the others as denied. */
  lemma {:induction false} EveryCheckCounted(config: Config, trace: seq<Arrival>, route: RouteClass, n: nat)
    requires n <= |trace|
    ensures After(config, trace, n).allowed.Get(route) == ChecksOf(config, trace, route, true, n)
    ensures After(config, trace, n).denied.Get(route) == ChecksOf(config, trace, route, false, n)
    decreases n
  {
    if n > 0 { EveryCheckCounted(config, trace, route, n - 1); }
  }

  /** A class without a limit is always admitted and keeps no bucket. */
  lemma UnlimitedIsAdmitted(config: Config, l: Limiter, key: BucketKey, now: int)
    requires !Limits(config(key.route))
    ensures Check(config, l, key, now).1 == Admitted && Check(config, l, key, now).0.buckets == l.buckets
  {
  }

  // ----- The advertised wait -----

  /** What a denied client is told, and what it finds when it comes back to a bucket nobody else has touched: the wait is
      the rest of the window in whole seconds, at least one. A second past it is always enough; the wait itself is enough
      exactly when the rest is a whole number of seconds, or less than one. */
  lemma RetryAfterExact(config: Config, l: Limiter, key: BucketKey, now: int, at: int)
    requires Limits(config(key.route)) && Check(config, l, key, now).1.Limited? && now <= at
    ensures var (after, verdict) := Check(config, l, key, now);
      var rest, wait := after.buckets[key].resetAt - now, verdict.retryAfter;
      && rest >= 1 && wait >= 1
      && (wait * NANOS <= rest < (wait + 1) * NANOS || (wait == 1 && rest < NANOS))
      && (Check(config, after, key, at).1 == Admitted <==> at >= now + rest)
      && (at >= now + (wait + 1) * NANOS ==> Check(config, after, key, at).1 == Admitted)
      && (Check(config, after, key, now + wait * NANOS).1 == Admitted <==> rest <= wait * NANOS)
  {
    CheckTouchesOneBucket(config, l, key, now, key);
    var after := Check(config, l, key, now).0;
    CheckTouchesOneBucket(config, after, key, at, key);
    CheckTouchesOneBucket(config, after, key, now + Check(config, l, key, now).1.retryAfter * NANOS, key);
  }

  /** So a client that waits as long as it was told can be denied again: one request per two seconds, asked for at 0, half
      a second later, and after the second it was told to wait. */
  lemma RetryCanBeEarly(config: Config, key: BucketKey)
    requires config(key.route) == RouteLimit(1, 2)
    ensures var trace := [Arrival(key, 0), Arrival(key, NANOS / 2), Arrival(key, NANOS / 2 + NANOS)];
      && AdmittedAt(config, trace, 0)
      && Check(config, After(config, trace, 1), key, trace[1].now).1 == Limited(1)
      && !AdmittedAt(config, trace, 2)
  {
    var trace := [Arrival(key, 0), Arrival(key, NANOS / 2), Arrival(key, NANOS / 2 + NANOS)];
    assert After(config, trace, 0) == Limiter(map[], ZERO, ZERO);
    CheckTouchesOneBucket(config, After(config, trace, 0), key, 0, key);
    assert After(config, trace, 1).buckets[key] == Window(2 * NANOS, 1);
    RetryAfterExact(config, After(config, trace, 1), key, trace[1].now, trace[2].now);
  }
}
