/** The exchange of CI identity tokens: claim checks, the purging replay table and the minted lifetime
    (crates/peryx-identity/src/oidc.rs). Claims are those of RFC 7519, sections 4.1.4 (`exp`) and 4.1.7 (`jti`). */
module OidcExchange {
  import opened Common
  import opened TrustedPublisher
  import opened Replay
  import opened Globs

  const MAX_IDENTITY_LIFETIME_SECS := 3600
  const MAX_JTI_BYTES := 256
  const MAX_SUBJECT_BYTES := 2048

  /** The claims of a token whose signature, algorithm, key and issuer were accepted. `audience` is `None` when the
      token names no audience or several. */
  datatype Claims = Claims(issuer: string, audience: Option<string>, subject: string, expires: i64, issued: i64,
                           notBefore: Option<i64>, jti: string, extra: map<string, string>)

  datatype ExchangeError = InvalidIdentity | ReplayError | ReplayCapacity | Denied(reason: PublishDenial)

  datatype Settings = Settings(publishers: seq<Publisher>, ttl: int, capacity: nat)

  /** What the runtime accepts at start-up. */
  ghost predicate Configured(settings: Settings) { settings.ttl > 0 && settings.capacity > 0 }

  /** The lifetime, unless the subtraction leaves 64 bits. */
  function Lifetime(claims: Claims): Option<int> {
    var span := claims.expires - claims.issued;
    if -0x8000_0000_0000_0000 <= span < 0x8000_0000_0000_0000 then Some(span) else None
  }

  predicate ClaimsHold(claims: Claims, now: int) {
    && claims.audience.Some?
    && 0 < |claims.subject| <= MAX_SUBJECT_BYTES
    && 0 < |claims.jti| <= MAX_JTI_BYTES
    && claims.issued <= now
    && (claims.notBefore.None? || claims.notBefore.value <= now)
    && Lifetime(claims).Some? && 0 < Lifetime(claims).value <= MAX_IDENTITY_LIFETIME_SECS
  }

  function ToPublish(claims: Claims): PublishClaims
    requires claims.audience.Some?
  {
    PublishClaims(claims.issuer, claims.audience.value, claims.subject, claims.expires, claims.extra)
  }

  // ----- The exchange -----

  datatype ExchangedToken = ExchangedToken(position: nat, expiresAt: int)
  datatype Outcome = Minted(token: ExchangedToken) | Failed(error: ExchangeError)

  /** One request: the claims of a token that passed signature verification, or nothing, and the clock. */
  datatype Request = Request(claims: Option<Claims>, now: int)

  /** What a request does to the replay table and what it yields if the table accepts; neither depends on the table. */
  function Gate(settings: Settings, r: Request): (Step, Outcome) {
    if r.claims.None? || !ClaimsHold(r.claims.value, r.now) then (Idle, Failed(InvalidIdentity))
    else
      var claims := r.claims.value;
      match Decision(settings.publishers, ToPublish(claims), r.now)
      case NoRule(denial) => (Idle, Failed(Denied(denial)))
      case Chosen(position, _) =>
        var span := claims.expires - r.now;
        var ttl := if settings.ttl <= span then settings.ttl else span;
        (Attempt(claims.issuer, claims.jti, claims.expires, r.now), Minted(ExchangedToken(position, r.now + ttl)))
  }

  function Exchange(settings: Settings, table: Table, r: Request): (Table, Outcome) {
    var (step, outcome) := Gate(settings, r);
    match step
    case Idle => (table, outcome)
    case Attempt(issuer, jti, expires, now) =>
      var (table', consumed) := Consume(table, settings.capacity, issuer, jti, expires, now);
      (table', match consumed case Accepted => outcome case Replayed => Failed(ReplayError) case Full => Failed(ReplayCapacity))
  }

  /** The exchange as it runs: verify, authorize, mint, then consume. */
  method RunExchange(settings: Settings, replay: ReplayTable, r: Request) returns (outcome: Outcome)
    requires settings.capacity == replay.capacity
    modifies replay
    ensures (replay.table, outcome) == Exchange(settings, old(replay.table), r)
  {
    if r.claims.None? || !ClaimsHold(r.claims.value, r.now) { return Failed(InvalidIdentity); }
    var claims := r.claims.value;
    var choice := AuthorizePublishIndex(settings.publishers, ToPublish(claims), r.now);
    if choice.NoRule? { return Failed(Denied(choice.denial)); }
    var span := claims.expires - r.now;
    var ttl := if settings.ttl <= span then settings.ttl else span;
    var consumed := replay.ConsumeReplay(claims.issuer, claims.jti, claims.expires, r.now);
    match consumed
    case Replayed => outcome := Failed(ReplayError);
    case Full => outcome := Failed(ReplayCapacity);
    case Accepted => outcome := Minted(ExchangedToken(choice.position, r.now + ttl));
  }

  // ----- What an exchange answers -----

  /** What a verified identity must satisfy: one audience, a subject of 1 to 2048 bytes, a token id of 1 to 256, issued
      and valid by now, and a lifetime of at most an hour. */
  ghost predicate IdentityHolds(c: Claims, now: int) {
    && c.audience != None && 1 <= |c.subject| <= 2048 && 1 <= |c.jti| <= 256
    && now >= c.issued && (c.notBefore.Some? ==> now >= c.notBefore.value)
    && c.issued < c.expires <= c.issued + 3600
  }

  /** The rule trusts this identity: its issuer and audience are the rule's, its subject is covered, every required claim
      is carried verbatim, and it has not expired. */
  ghost predicate Trusts(p: Publisher, c: Claims, now: int) {
    && c.issuer == p.issuer && c.audience == Some(p.audience) && now < c.expires && Matches(p.subject, c.subject)
    && forall i :: 0 <= i < |p.claims| ==> p.claims[i].0 in c.extra && c.extra[p.claims[i].0] == p.claims[i].1
  }

  ghost predicate FirstTrusting(ps: seq<Publisher>, c: Claims, now: int, i: nat) {
    i < |ps| && Trusts(ps[i], c, now) && forall j :: 0 <= j < i ==> !Trusts(ps[j], c, now)
  }

  /** Whether a request reaches the replay table, and what it is told if not: it does exactly when its identity holds and
      some rule trusts it. */
  lemma GateExact(settings: Settings, r: Request)
    ensures Gate(settings, r).1 == Failed(InvalidIdentity) <==> r.claims.None? || !IdentityHolds(r.claims.value, r.now)
    ensures Gate(settings, r).0.Attempt? <==>
      r.claims.Some? && IdentityHolds(r.claims.value, r.now) &&
      exists i :: 0 <= i < |settings.publishers| && Trusts(settings.publishers[i], r.claims.value, r.now)
    ensures Gate(settings, r).0.Idle? && r.claims.Some? && IdentityHolds(r.claims.value, r.now) ==>
      exists d :: Gate(settings, r).1 == Failed(Denied(d)) && Reason(settings.publishers, ToPublish(r.claims.value), r.now, d)
  {
    if r.claims.Some? {
      var c := r.claims.value;
      if ClaimsHold(c, r.now) {
        DecisionExact(settings.publishers, ToPublish(c), r.now);
      }
    }
  }

  /** What a request that reaches the table attempts, and the token it is after: for the first rule that trusts it, until
      the lifetime or the identity runs out. */
  lemma AttemptExact(settings: Settings, r: Request)
    requires Gate(settings, r).0.Attempt?
    ensures var c := r.claims.value;
      && Gate(settings, r).0 == Attempt(c.issuer, c.jti, c.expires, r.now)
      && Gate(settings, r).1.Minted? && FirstTrusting(settings.publishers, c, r.now, Gate(settings, r).1.token.position)
      && var at := Gate(settings, r).1.token.expiresAt;
         at <= r.now + settings.ttl && at <= c.expires && (at == r.now + settings.ttl || at == c.expires)
  {
    DecisionExact(settings.publishers, ToPublish(r.claims.value), r.now);
  }

  /** The identities that the table still remembers at `now`. */
  ghost function Remembered(table: Table, now: int): set<(string, string)> { set k | k in table && table[k] > now }

  /** Every answer of the exchange, both ways. A request whose identity does not hold is invalid; one that no rule trusts is
      denied; of the others, one whose identity the table remembers is a replay, one that finds the table full of other
      identities is put off, and the rest are minted a token. */
  lemma ExchangeExact(settings: Settings, table: Table, r: Request)
    ensures var outcome := Exchange(settings, table, r).1;
      var holds := r.claims.Some? && IdentityHolds(r.claims.value, r.now);
      var trusted := holds && exists i :: 0 <= i < |settings.publishers| && Trusts(settings.publishers[i], r.claims.value, r.now);
      var known := trusted && (r.claims.value.issuer, r.claims.value.jti) in Remembered(table, r.now);
      var full := |Remembered(table, r.now)| >= settings.capacity;
      && (outcome == Failed(InvalidIdentity) <==> !holds)
      && (outcome.Failed? && outcome.error.Denied? <==> holds && !trusted)
      && (outcome == Failed(ReplayError) <==> trusted && known)
      && (outcome == Failed(ReplayCapacity) <==> trusted && !known && full)
      && (outcome.Minted? <==> trusted && !known && !full)
  {
    GateExact(settings, r);
    if Gate(settings, r).0.Attempt? {
      AttemptExact(settings, r);
      RememberedExact(table, r.now);
    }
  }

  lemma RememberedExact(table: Table, now: int)
    ensures Purged(table, now).Keys == Remembered(table, now) && |Purged(table, now)| == |Remembered(table, now)|
  {
    assert Purged(table, now).Keys == Remembered(table, now);
  }

  /** What a minted token stands for: an identity that holds, the first rule that trusts it, and an expiry after now that
      is the sooner of the configured lifetime and the identity's own end. */
  lemma MintIsBounded(settings: Settings, table: Table, r: Request)
    requires Configured(settings) && Exchange(settings, table, r).1.Minted?
    ensures r.claims.Some? && IdentityHolds(r.claims.value, r.now)
    ensures FirstTrusting(settings.publishers, r.claims.value, r.now, Exchange(settings, table, r).1.token.position)
    ensures var at := Exchange(settings, table, r).1.token.expiresAt;
      && r.now < at <= r.now + settings.ttl && at <= r.claims.value.expires
      && (at == r.now + settings.ttl || at == r.claims.value.expires)
  {
    GateExact(settings, r);
    AttemptExact(settings, r);
  }

  lemma AttemptIsLive(settings: Settings, r: Request)
    ensures Gate(settings, r).0.Attempt? ==>
      Gate(settings, r).0.now == r.now < Gate(settings, r).0.expires <= r.now + MAX_IDENTITY_LIFETIME_SECS
  {
    if Gate(settings, r).0.Attempt? {
      GateExact(settings, r);
      AttemptExact(settings, r);
    }
  }

  // ----- Runs -----

  /** The replay steps of a run of requests. */
  function StepsOf(settings: Settings, requests: seq<Request>): (steps: seq<Step>)
    ensures |steps| == |requests| && forall i :: 0 <= i < |requests| ==> steps[i] == Gate(settings, requests[i]).0
  {
    seq(|requests|, i requires 0 <= i < |requests| => Gate(settings, requests[i]).0)
  }

  /** The table after the first `n` requests of a run that starts empty. */
  function RunTable(settings: Settings, requests: seq<Request>, n: nat): Table
    requires n <= |requests|
  {
    if n == 0 then map[] else Exchange(settings, RunTable(settings, requests, n - 1), requests[n - 1]).0
  }

  predicate Succeeds(settings: Settings, requests: seq<Request>, i: nat)
    requires i < |requests|
  {
    Exchange(settings, RunTable(settings, requests, i), requests[i]).1.Minted?
  }

  lemma {:induction false} RunIsSteps(settings: Settings, requests: seq<Request>, n: nat)
    requires n <= |requests|
    ensures RunTable(settings, requests, n) == TableAfter(settings.capacity, StepsOf(settings, requests), n)
    decreases n
  {
    if n > 0 { RunIsSteps(settings, requests, n - 1); }
  }

  lemma SuccessIsAcceptance(settings: Settings, requests: seq<Request>, i: nat)
    requires i < |requests|
    ensures Succeeds(settings, requests, i) <==> AcceptedAt(settings.capacity, StepsOf(settings, requests), i)
  {
    RunIsSteps(settings, requests, i);
  }

  /** The request reaches the replay table. */
  predicate Attempting(settings: Settings, r: Request) { Gate(settings, r).0.Attempt? }

  /** In every run the table stays within its capacity and holds nothing that outlives the attempts' clock by more than
      an hour. */
  lemma RunIsBounded(settings: Settings, requests: seq<Request>, n: nat, now: int)
    requires n <= |requests| && forall i :: 0 <= i < n && Attempting(settings, requests[i]) ==> requests[i].now <= now
    ensures |RunTable(settings, requests, n)| <= settings.capacity
    ensures forall key :: key in RunTable(settings, requests, n) ==>
      RunTable(settings, requests, n)[key] <= now + MAX_IDENTITY_LIFETIME_SECS
  {
    var steps := StepsOf(settings, requests);
    RunIsSteps(settings, requests, n);
    TableIsBounded(settings.capacity, steps, n);
    forall i | 0 <= i < n && steps[i].Attempt?
      ensures steps[i].expires <= steps[i].now + MAX_IDENTITY_LIFETIME_SECS && steps[i].now <= now
    {
      AttemptIsLive(settings, requests[i]);
    }
    forall key | key in RunTable(settings, requests, n)
      ensures RunTable(settings, requests, n)[key] <= now + MAX_IDENTITY_LIFETIME_SECS
    {
      EntriesAreShortLived(settings.capacity, steps, n, MAX_IDENTITY_LIFETIME_SECS, now, key);
    }
  }

  /** The clock does not go back between requests that reach the replay table; what others read does not matter. */
  ghost predicate NondecreasingClock(settings: Settings, requests: seq<Request>) {
    forall i, j :: 0 <= i < j < |requests| && Attempting(settings, requests[i]) && Attempting(settings, requests[j]) ==>
      requests[i].now <= requests[j].now
  }

  ghost predicate SameIdentity(a: Request, b: Request) {
    a.claims.Some? && b.claims.Some? && a.claims.value.issuer == b.claims.value.issuer && a.claims.value.jti == b.claims.value.jti
  }

  ghost predicate SameToken(a: Request, b: Request) {
    SameIdentity(a, b) && a.claims.value.expires == b.claims.value.expires
  }

  /** Strictly between two requests, one reached the replay table with its clock at or past `expires`. */
  ghost predicate PastExpiryBetween(settings: Settings, requests: seq<Request>, i: nat, j: nat, expires: int)
    requires j < |requests|
  {
    exists k :: i < k < j && Attempting(settings, requests[k]) && requests[k].now >= expires
  }

  lemma AttemptCarriesClaims(settings: Settings, r: Request)
    requires Attempting(settings, r)
    ensures r.claims.Some? && Gate(settings, r).0 == Attempt(r.claims.value.issuer, r.claims.value.jti, r.claims.value.expires, r.now)
  {
  }

  /** A purge up to and including the second attempt at a live token is a purge strictly before it. */
  lemma PurgeIsBetween(settings: Settings, requests: seq<Request>, i: nat, j: nat)
    requires i < j < |requests| && SameToken(requests[i], requests[j]) && Attempting(settings, requests[j])
    ensures PurgedBetween(StepsOf(settings, requests), i, j, requests[i].claims.value.expires) <==>
      PastExpiryBetween(settings, requests, i, j, requests[i].claims.value.expires)
  {
    var steps, expires := StepsOf(settings, requests), requests[i].claims.value.expires;
    AttemptCarriesClaims(settings, requests[j]);
    AttemptIsLive(settings, requests[j]);
    forall k | i < k <= j && steps[k].Attempt? ensures Attempting(settings, requests[k]) && steps[k].now == requests[k].now {
      AttemptCarriesClaims(settings, requests[k]);
    }
    if k :| i < k < j && Attempting(settings, requests[k]) && requests[k].now >= expires {
      assert steps[k].Attempt? && steps[k].now >= expires;
    }
  }

  /** On any clock, a token exchanged a second time needs a request strictly in between whose clock was at or past the
      token's expiry. */
  lemma SecondExchangeNeedsPurge(settings: Settings, requests: seq<Request>, i: nat, j: nat)
    requires i < j < |requests| && SameToken(requests[i], requests[j])
    requires Succeeds(settings, requests, i) && Succeeds(settings, requests, j)
    ensures PastExpiryBetween(settings, requests, i, j, requests[i].claims.value.expires)
  {
    SuccessIsAcceptance(settings, requests, i);
    SuccessIsAcceptance(settings, requests, j);
    AttemptCarriesClaims(settings, requests[i]);
    AttemptCarriesClaims(settings, requests[j]);
    SecondSuccessNeedsPurge(settings.capacity, StepsOf(settings, requests), i, j);
    PurgeIsBetween(settings, requests, i, j);
  }

  /** Exactly when a repeated token is refused as a replay, on any clock: if nothing exchanged it in between, when no
      request strictly in between reached the table past its expiry. */
  lemma ReplayRefusedIff(settings: Settings, requests: seq<Request>, i: nat, j: nat)
    requires i < j < |requests| && SameToken(requests[i], requests[j])
    requires Succeeds(settings, requests, i) && Attempting(settings, requests[j])
    requires forall k :: i < k < j && Succeeds(settings, requests, k) ==> !SameIdentity(requests[i], requests[k])
    ensures Exchange(settings, RunTable(settings, requests, j), requests[j]).1 == Failed(ReplayError) <==>
      !PastExpiryBetween(settings, requests, i, j, requests[i].claims.value.expires)
  {
    var steps := StepsOf(settings, requests);
    SuccessIsAcceptance(settings, requests, i);
    AttemptCarriesClaims(settings, requests[i]);
    AttemptCarriesClaims(settings, requests[j]);
    forall k | i < k < j && AcceptedAt(settings.capacity, steps, k) ensures steps[k].Key() != steps[i].Key() {
      SuccessIsAcceptance(settings, requests, k);
      AttemptCarriesClaims(settings, requests[k]);
    }
    ReplayIffNotPurged(settings.capacity, steps, i, j);
    PurgeIsBetween(settings, requests, i, j);
    RunIsSteps(settings, requests, j);
    AnswerIsOutcome(settings, requests, j);
  }

  lemma AnswerIsOutcome(settings: Settings, requests: seq<Request>, j: nat)
    requires j < |requests| && Attempting(settings, requests[j])
    ensures Exchange(settings, RunTable(settings, requests, j), requests[j]).1 == Failed(ReplayError) <==>
      Answer(settings.capacity, StepsOf(settings, requests), j) == Replayed
  {
    RunIsSteps(settings, requests, j);
  }

  /** Over every run whose clock does not go back, no identity token (issuer, jti, expiry) is exchanged twice, although
      expired entries are purged all along. */
  lemma NoTokenTwice(settings: Settings, requests: seq<Request>, i: nat, j: nat)
    requires i < j < |requests| && NondecreasingClock(settings, requests) && SameToken(requests[i], requests[j])
    ensures !(Succeeds(settings, requests, i) && Succeeds(settings, requests, j))
  {
    if Succeeds(settings, requests, i) && Succeeds(settings, requests, j) {
      SecondExchangeNeedsPurge(settings, requests, i, j);
      SuccessIsAcceptance(settings, requests, j);
      AttemptCarriesClaims(settings, requests[j]);
      AttemptIsLive(settings, requests[j]);
      assert false;
    }
  }

  const CI_RULE := Publisher("ci", "peryx", "*", [], ["*"])
  const CI := Settings([CI_RULE], 60, 10)

  function CiRequest(jti: string, issued: i64, expires: i64, now: int): Request {
    Request(Some(Claims("ci", Some("peryx"), "job", expires, issued, None, jti, map[])), now)
  }

  lemma CiAttempts(jti: string, issued: i64, expires: i64, now: int)
    requires 0 < |jti| <= MAX_JTI_BYTES && issued <= now < expires && expires - issued <= MAX_IDENTITY_LIFETIME_SECS
    ensures Gate(CI, CiRequest(jti, issued, expires, now)).0 == Attempt("ci", jti, expires, now)
  {
    var r := CiRequest(jti, issued, expires, now);
    OneStar("job");
    assert CI.publishers[0] == CI_RULE;
    assert AuthorizeRule(CI_RULE, ToPublish(r.claims.value), now).Granted?;
  }

  /** A clock that goes back does break single use: the second of these requests purges the first token, and the third,
      stamped before its expiry, exchanges it again. */
  lemma BackwardClockExchangesTwice()
    ensures var requests := [CiRequest("a", 50, 100, 90), CiRequest("b", 140, 200, 150), CiRequest("a", 50, 100, 95)];
      SameToken(requests[0], requests[2]) && Succeeds(CI, requests, 0) && Succeeds(CI, requests, 2)
  {
    var requests := [CiRequest("a", 50, 100, 90), CiRequest("b", 140, 200, 150), CiRequest("a", 50, 100, 95)];
    var steps := [Attempt("ci", "a", 100, 90), Attempt("ci", "b", 200, 150), Attempt("ci", "a", 100, 95)];
    CiAttempts("a", 50, 100, 90);
    CiAttempts("b", 140, 200, 150);
    CiAttempts("a", 50, 100, 95);
    assert StepsOf(CI, requests) == steps;
    BackwardClockReplays();
    SuccessIsAcceptance(CI, requests, 0);
    SuccessIsAcceptance(CI, requests, 2);
  }
}
