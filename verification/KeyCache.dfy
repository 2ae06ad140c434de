/** An issuer's key cache: a soft deadline, a hard deadline and a back-off between fetches
    (crates/peryx-identity/src/oidc.rs). */
module KeyCache {
  import opened Common

  const MIN_FRESH_SECS := 60
  const DEFAULT_FRESH_SECS := 300
  const MAX_FRESH_SECS := 900
  const HARD_CACHE_SECS := 3600

  datatype Cache = Cache(keys: map<string, string>, freshUntil: int, hardUntil: int, refreshAfter: int)

  const EMPTY := Cache(map[], 0, 0, 0)

  /** What a refresh would yield: a key set with the two responses' advertised ages, or an error. */
  datatype Refresh = Fetched(keys: map<string, string>, discoveryAge: Option<int>, jwksAge: Option<int>) | Down

  datatype Answer = Key(key: string) | UnknownKey | IssuerError

  function Age(age: Option<int>): int { if age.Some? then age.value else DEFAULT_FRESH_SECS }
  function Min(a: int, b: int): int { if a <= b then a else b }
  function Clamp(x: int, lo: int, hi: int): int { if x < lo then lo else if x > hi then hi else x }

  function Refreshed(f: Refresh, now: int): Cache
    requires f.Fetched?
  {
    var freshFor := Clamp(Min(Age(f.discoveryAge), Age(f.jwksAge)), MIN_FRESH_SECS, MAX_FRESH_SECS);
    Cache(f.keys, now + freshFor, now + HARD_CACHE_SECS, now + MIN_FRESH_SECS)
  }

  predicate HardExpired(cache: Cache, now: int) { cache.keys != map[] && now >= cache.hardUntil }

  /** Whether a request for `kid` at `now` goes to the issuer. */
  predicate Attempts(cache: Cache, kid: string, now: int) {
    (kid !in cache.keys || now >= cache.freshUntil) && (now >= cache.refreshAfter || HardExpired(cache, now))
  }

  function Lookup(cache: Cache, kid: string): Answer { if kid in cache.keys then Key(cache.keys[kid]) else UnknownKey }

  function Ask(cache: Cache, kid: string, now: int, outcome: Refresh): (Cache, Answer) {
    if !Attempts(cache, kid, now) then (cache, Lookup(cache, kid))
    else
      match outcome
      case Fetched(_, _, _) => (Refreshed(outcome, now), Lookup(Refreshed(outcome, now), kid))
      case Down =>
        var backedOff := cache.(refreshAfter := now + MIN_FRESH_SECS);
        (backedOff, if kid !in cache.keys || HardExpired(cache, now) then IssuerError else Lookup(backedOff, kid))
  }

  /** The cache behind its lock, which is held across the fetch. */
  class Issuer {
    var cache: Cache

    constructor ()
      ensures cache == EMPTY
    {
      cache := EMPTY;
    }

    method KeyFor(kid: string, now: int, outcome: Refresh) returns (answer: Answer)
      modifies this
      ensures (cache, answer) == Ask(old(cache), kid, now, outcome)
    {
      var missing := kid !in cache.keys;
      var refresh := missing || now >= cache.freshUntil;
      var hardExpired := cache.keys != map[] && now >= cache.hardUntil;
      if refresh && (now >= cache.refreshAfter || hardExpired) {
        match outcome {
          case Fetched(_, _, _) => cache := Refreshed(outcome, now);
          case Down =>
            cache := cache.(refreshAfter := now + MIN_FRESH_SECS);
            if missing || hardExpired { return IssuerError; }
        }
      }
      answer := if kid in cache.keys then Key(cache.keys[kid]) else UnknownKey;
    }
  }

  // ----- Runs -----

  /** One request; `outcome` is what a fetch would return if this request made one. */
  datatype Request = Request(kid: string, now: int, outcome: Refresh)

  function After(requests: seq<Request>, n: nat): Cache
    requires n <= |requests|
  {
    if n == 0 then EMPTY
    else Ask(After(requests, n - 1), requests[n - 1].kid, requests[n - 1].now, requests[n - 1].outcome).0
  }

  function AnswerTo(requests: seq<Request>, i: nat): Answer
    requires i < |requests|
  {
    Ask(After(requests, i), requests[i].kid, requests[i].now, requests[i].outcome).1
  }

  predicate AttemptAt(requests: seq<Request>, i: nat)
    requires i < |requests|
  {
    Attempts(After(requests, i), requests[i].kid, requests[i].now)
  }

  /** Request `i` fetched a key set. */
  predicate FetchAt(requests: seq<Request>, i: nat)
    requires i < |requests|
  {
    AttemptAt(requests, i) && requests[i].outcome.Fetched?
  }

  /** The keys and both deadlines come from the fetch at `i`. */
  ghost predicate From(cache: Cache, requests: seq<Request>, i: nat)
    requires i < |requests|
  {
    && FetchAt(requests, i) && cache.keys == requests[i].outcome.keys
    && cache.hardUntil == requests[i].now + HARD_CACHE_SECS
    && requests[i].now + MIN_FRESH_SECS <= cache.freshUntil <= requests[i].now + MAX_FRESH_SECS
  }

  /** In every run the cache is empty or carries the latest fetch, whose soft deadline precedes its hard one. */
  lemma {:induction false} CacheHasOrigin(requests: seq<Request>, n: nat)
    requires n <= |requests|
    ensures After(requests, n).freshUntil <= After(requests, n).hardUntil
    ensures After(requests, n).keys == map[] || exists i :: 0 <= i < n && From(After(requests, n), requests, i) && LatestFetch(requests, i, n)
    decreases n
  {
    if n > 0 {
      CacheHasOrigin(requests, n - 1);
      var before, after, r := After(requests, n - 1), After(requests, n), requests[n - 1];
      if FetchAt(requests, n - 1) {
        assert From(after, requests, n - 1) && LatestFetch(requests, n - 1, n);
      } else if after.keys != map[] {
        var i :| 0 <= i < n - 1 && From(before, requests, i) && LatestFetch(requests, i, n - 1);
        assert From(after, requests, i) && LatestFetch(requests, i, n);
      }
    }
  }

  ghost predicate LatestFetch(requests: seq<Request>, i: nat, n: nat)
    requires n <= |requests|
  {
    forall k :: i < k < n ==> !FetchAt(requests, k)
  }

  /** A key is answered only less than an hour after the fetch that produced it, and that fetch is the latest one. */
  lemma KeysAreYoung(requests: seq<Request>, j: nat) returns (i: nat)
    requires j < |requests| && AnswerTo(requests, j).Key?
    ensures i <= j && FetchAt(requests, i) && LatestFetch(requests, i, j + 1)
    ensures requests[j].kid in requests[i].outcome.keys && requests[i].outcome.keys[requests[j].kid] == AnswerTo(requests, j).key
    ensures requests[j].now < requests[i].now + HARD_CACHE_SECS
  {
    var r := requests[j];
    CacheHasOrigin(requests, j);
    if FetchAt(requests, j) {
      i := j;
    } else {
      i :| 0 <= i < j && From(After(requests, j), requests, i) && LatestFetch(requests, i, j);
    }
  }

  /** Between two consecutive attempts at least a minute passes, unless the key set is past its hard deadline. */
  lemma AttemptsAreSpaced(requests: seq<Request>, i: nat, j: nat)
    requires i < j < |requests| && AttemptAt(requests, i) && AttemptAt(requests, j)
    requires forall k :: i < k < j ==> !AttemptAt(requests, k)
    ensures requests[j].now >= requests[i].now + MIN_FRESH_SECS || HardExpired(After(requests, j), requests[j].now)
  {
    BackOffStays(requests, i, j);
  }

  lemma {:induction false} BackOffStays(requests: seq<Request>, i: nat, n: nat)
    requires i < n <= |requests| && AttemptAt(requests, i) && forall k :: i < k < n ==> !AttemptAt(requests, k)
    ensures After(requests, n).refreshAfter == requests[i].now + MIN_FRESH_SECS
    decreases n
  {
    if i + 1 < n {
      BackOffStays(requests, i, n - 1);
      assert !AttemptAt(requests, n - 1);
    } else {
      assert AttemptAt(requests, n - 1);
    }
  }

  // ----- The cache as history -----

  /** How long a fetched set counts as fresh: the shorter of the two advertised ages, five minutes where none is, held
      between one and fifteen minutes. */
  ghost function FreshSecs(f: Refresh): int
    requires f.Fetched?
  {
    var discovery := if f.discoveryAge.Some? then f.discoveryAge.value else 300;
    var jwks := if f.jwksAge.Some? then f.jwksAge.value else 300;
    if discovery < 60 || jwks < 60 then 60 else if discovery > 900 && jwks > 900 then 900
    else if discovery < jwks then discovery else jwks
  }

  ghost function LastAttempt(requests: seq<Request>, n: nat): (a: Option<nat>)
    requires n <= |requests|
    ensures a.Some? ==> a.value < n && AttemptAt(requests, a.value)
  {
    if n == 0 then None else if AttemptAt(requests, n - 1) then Some(n - 1) else LastAttempt(requests, n - 1)
  }

  ghost function LastFetch(requests: seq<Request>, n: nat): (f: Option<nat>)
    requires n <= |requests|
    ensures f.Some? ==> f.value < n && FetchAt(requests, f.value)
  {
    if n == 0 then None else if FetchAt(requests, n - 1) then Some(n - 1) else LastFetch(requests, n - 1)
  }

  /** The keys of the last fetch before request `n`. */
  ghost function HeldKeys(requests: seq<Request>, n: nat): map<string, string>
    requires n <= |requests|
  {
    if LastFetch(requests, n).Some? then requests[LastFetch(requests, n).value].outcome.keys else map[]
  }

  /** The held keys are an hour old at `now`. */
  ghost predicate HoursOld(requests: seq<Request>, n: nat, now: int)
    requires n <= |requests|
  {
    HeldKeys(requests, n) != map[] && now >= requests[LastFetch(requests, n).value].now + 3600
  }

  lemma {:induction false} CacheIsHistory(requests: seq<Request>, n: nat)
    requires n <= |requests|
    ensures var cache, a, f := After(requests, n), LastAttempt(requests, n), LastFetch(requests, n);
      && cache.keys == HeldKeys(requests, n)
      && cache.refreshAfter == (if a.Some? then requests[a.value].now + 60 else 0)
      && (f.Some? ==> cache.freshUntil == requests[f.value].now + FreshSecs(requests[f.value].outcome))
      && (f.Some? ==> cache.hardUntil == requests[f.value].now + 3600)
    decreases n
  {
    if n > 0 { CacheIsHistory(requests, n - 1); }
  }

  /** Exactly which requests go to the issuer, from the history alone: those for a key the last fetch did not bring or whose
      set is no longer fresh, unless a minute has not passed since the last attempt and the set is not an hour old. */
  lemma AttemptExact(requests: seq<Request>, j: nat)
    requires j < |requests|
    ensures var r, a, f := requests[j], LastAttempt(requests, j), LastFetch(requests, j);
      AttemptAt(requests, j) <==>
        && (r.kid !in HeldKeys(requests, j) || r.now >= requests[f.value].now + FreshSecs(requests[f.value].outcome))
        && (r.now >= (if a.Some? then requests[a.value].now + 60 else 0) || HoursOld(requests, j, r.now))
  {
    CacheIsHistory(requests, j);
  }

  /** Exactly what a request is answered: an error if its fetch failed with the key missing or the set an hour old, else
      the key out of what it fetched, or out of the last fetch before. */
  lemma AnswerExact(requests: seq<Request>, j: nat)
    requires j < |requests|
    ensures var r := requests[j];
      var failed := AttemptAt(requests, j) && r.outcome.Down? && (r.kid !in HeldKeys(requests, j) || HoursOld(requests, j, r.now));
      var keys := HeldKeys(requests, j + 1);
      AnswerTo(requests, j) == if failed then IssuerError else if r.kid in keys then Key(keys[r.kid]) else UnknownKey
  {
    CacheIsHistory(requests, j);
    CacheIsHistory(requests, j + 1);
  }

  /** A failed refresh keeps the key set and both deadlines, and still answers from the keys until the hard deadline. */
  lemma FailureKeepsKeys(requests: seq<Request>, i: nat)
    requires i < |requests| && requests[i].outcome.Down?
    ensures var before, after := After(requests, i), After(requests, i + 1);
      && after.keys == before.keys && after.freshUntil == before.freshUntil && after.hardUntil == before.hardUntil
      && (requests[i].kid in before.keys && requests[i].now < before.hardUntil ==>
            AnswerTo(requests, i) == Key(before.keys[requests[i].kid]))
  {
    CacheHasOrigin(requests, i);
  }
}
