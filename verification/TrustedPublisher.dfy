/** Authorizing a CI identity's claims against the configured publishers
    (crates/peryx-identity/src/trusted_publisher.rs). */
module TrustedPublisher {
  import opened Common
  import opened Acl
  import Globs

  /** One rule. `claims` lists the required claims in the order of the rule's sorted map. */
  datatype Publisher = Publisher(issuer: string, audience: string, subject: string, claims: seq<(string, string)>, projects: seq<Text>)

  datatype PublishClaims = PublishClaims(issuer: string, audience: string, subject: string, expiresAt: int, claims: map<string, string>)

  datatype PublishDenial = UnknownIssuer | WrongAudience | Expired | WrongSubject | ClaimMismatch(claim: string)

  datatype Verdict = Granted(grants: seq<Grant>) | Refused(denial: PublishDenial)

  /** How far a rule got before refusing. */
  function Rank(d: PublishDenial): nat {
    match d
    case UnknownIssuer => 0
    case WrongAudience => 1
    case Expired => 2
    case WrongSubject => 3
    case ClaimMismatch(_) => 4
  }

  predicate Carries(held: map<string, string>, required: (string, string)) {
    required.0 in held && held[required.0] == required.1
  }

  /** The first required claim that is missing or different. */
  function FirstMismatch(required: seq<(string, string)>, held: map<string, string>): (r: Option<string>)
    ensures r.None? <==> forall i :: 0 <= i < |required| ==> Carries(held, required[i])
    ensures r.Some? ==> exists i :: 0 <= i < |required| && required[i].0 == r.value && !Carries(held, required[i]) &&
                                    forall j :: 0 <= j < i ==> Carries(held, required[j])
  {
    if required == [] then None
    else if !Carries(held, required[0]) then Some(required[0].0)
    else
      var rest := FirstMismatch(required[1..], held);
      assert forall i :: 0 <= i < |required[1..]| ==> required[1..][i] == required[i + 1];
      rest
  }

  /** One rule's answer, in the order a reader reasons about trust. */
  function AuthorizeRule(p: Publisher, claims: PublishClaims, now: int): Verdict {
    if p.issuer != claims.issuer then Refused(UnknownIssuer)
    else if p.audience != claims.audience then Refused(WrongAudience)
    else if now >= claims.expiresAt then Refused(Expired)
    else if !Globs.Matches(p.subject, claims.subject) then Refused(WrongSubject)
    else
      match FirstMismatch(p.claims, claims.claims)
      case Some(claim) => Refused(ClaimMismatch(claim))
      case None => Granted([Grant(p.projects, {Write})])
  }

  datatype Choice = Chosen(position: nat, grants: seq<Grant>) | NoRule(denial: PublishDenial)

  /** The decision over the rules from `i` on, given the best denial so far. */
  function Decide(ps: seq<Publisher>, claims: PublishClaims, now: int, i: nat, denial: PublishDenial): Choice
    requires i <= |ps|
    decreases |ps| - i
  {
    if i == |ps| then NoRule(denial)
    else
      match AuthorizeRule(ps[i], claims, now)
      case Granted(grants) => Chosen(i, grants)
      case Refused(reason) => Decide(ps, claims, now, i + 1, if Rank(reason) >= Rank(denial) then reason else denial)
  }

  function Decision(ps: seq<Publisher>, claims: PublishClaims, now: int): Choice { Decide(ps, claims, now, 0, UnknownIssuer) }

  /** The loop over the rules: the first that matches wins; otherwise the reason of the rule that came closest. */
  method AuthorizePublishIndex(publishers: seq<Publisher>, claims: PublishClaims, now: int) returns (choice: Choice)
    ensures choice == Decision(publishers, claims, now)
    ensures choice.Chosen? ==>
      && FirstAccepting(publishers, claims, now, choice.position)
      && choice.grants == [Grant(publishers[choice.position].projects, {Write})]
    ensures choice.NoRule? ==> forall i :: 0 <= i < |publishers| ==> !Accepts(publishers[i], claims, now)
  {
    DecisionExact(publishers, claims, now);
    var denial := UnknownIssuer;
    for position := 0 to |publishers|
      invariant Decide(publishers, claims, now, position, denial) == Decision(publishers, claims, now)
    {
      match AuthorizeRule(publishers[position], claims, now) {
        case Granted(grants) => return Chosen(position, grants);
        case Refused(reason) => if Rank(reason) >= Rank(denial) { denial := reason; }
      }
    }
    choice := NoRule(denial);
  }

  // ----- What a rule asks of the claims -----

  /** The rule is about this token: same issuer, minted for this audience. */
  ghost predicate Addressed(p: Publisher, claims: PublishClaims) {
    p.issuer == claims.issuer && p.audience == claims.audience
  }

  /** ... and its subject pattern covers the token's subject. */
  ghost predicate Speaks(p: Publisher, claims: PublishClaims) {
    Addressed(p, claims) && Globs.Matches(p.subject, claims.subject)
  }

  /** The first required claim the token does not carry verbatim is this one. */
  ghost predicate Lacks(p: Publisher, claims: PublishClaims, claim: string) {
    exists i :: 0 <= i < |p.claims| && p.claims[i].0 == claim && !(claim in claims.claims && claims.claims[claim] == p.claims[i].1) &&
      forall j :: 0 <= j < i ==> p.claims[j].0 in claims.claims && claims.claims[p.claims[j].0] == p.claims[j].1
  }

  /** Everything a rule asks: issuer, audience, an unexpired token, a covered subject and every required claim. */
  ghost predicate Accepts(p: Publisher, claims: PublishClaims, now: int) {
    && p.issuer == claims.issuer && p.audience == claims.audience && now < claims.expiresAt
    && Globs.Matches(p.subject, claims.subject)
    && forall i :: 0 <= i < |p.claims| ==> p.claims[i].0 in claims.claims && claims.claims[p.claims[i].0] == p.claims[i].1
  }

  ghost predicate FirstAccepting(ps: seq<Publisher>, claims: PublishClaims, now: int, i: nat) {
    i < |ps| && Accepts(ps[i], claims, now) && forall j :: 0 <= j < i ==> !Accepts(ps[j], claims, now)
  }

  lemma RuleExact(p: Publisher, claims: PublishClaims, now: int)
    ensures AuthorizeRule(p, claims, now) == Granted([Grant(p.projects, {Write})]) <==> Accepts(p, claims, now)
    ensures AuthorizeRule(p, claims, now).Granted? ==> Accepts(p, claims, now)
    ensures var refusal := AuthorizeRule(p, claims, now);
      && (refusal == Refused(UnknownIssuer) <==> p.issuer != claims.issuer)
      && (refusal == Refused(WrongAudience) <==> p.issuer == claims.issuer && !Addressed(p, claims))
      && (refusal == Refused(Expired) <==> Addressed(p, claims) && now >= claims.expiresAt)
      && (refusal == Refused(WrongSubject) <==> Addressed(p, claims) && now < claims.expiresAt && !Speaks(p, claims))
      && (refusal.Refused? && refusal.denial.ClaimMismatch? ==>
          Speaks(p, claims) && now < claims.expiresAt && Lacks(p, claims, refusal.denial.claim))
  {
    match FirstMismatch(p.claims, claims.claims)
    case None => assert forall i :: 0 <= i < |p.claims| ==> Carries(claims.claims, p.claims[i]);
    case Some(claim) =>
      var i :| 0 <= i < |p.claims| && p.claims[i].0 == claim && !Carries(claims.claims, p.claims[i]) &&
               forall j :: 0 <= j < i ==> Carries(claims.claims, p.claims[j]);
      assert forall j :: 0 <= j < i ==> Carries(claims.claims, p.claims[j]);
  }

  // ----- What the decision says -----

  /** Every rule of `ps` refuses, and the reason kept is that of the last of those that got furthest. */
  ghost predicate Explains(ps: seq<Publisher>, claims: PublishClaims, now: int, denial: PublishDenial) {
    && (forall i :: 0 <= i < |ps| ==> RefusedBy(ps[i], claims, now, Rank(denial)))
    && if ps == [] then denial == UnknownIssuer
       else exists i :: 0 <= i < |ps| && AuthorizeRule(ps[i], claims, now) == Refused(denial) &&
              forall j :: i < j < |ps| ==> RefusedBy(ps[j], claims, now, Rank(denial) - 1)
  }

  /** The rule refuses, and got no further than this. */
  ghost predicate RefusedBy(p: Publisher, claims: PublishClaims, now: int, rank: int) {
    AuthorizeRule(p, claims, now).Refused? && Rank(AuthorizeRule(p, claims, now).denial) <= rank
  }

  lemma ExplainsNext(ps: seq<Publisher>, p: Publisher, claims: PublishClaims, now: int, denial: PublishDenial)
    requires Explains(ps, claims, now, denial) && AuthorizeRule(p, claims, now).Refused?
    ensures var reason := AuthorizeRule(p, claims, now).denial;
      Explains(ps + [p], claims, now, if Rank(reason) >= Rank(denial) then reason else denial)
  {
    var reason, all := AuthorizeRule(p, claims, now).denial, ps + [p];
    forall i | 0 <= i < |ps| ensures RefusedBy(all[i], claims, now, Rank(denial)) { assert all[i] == ps[i]; }
    if Rank(reason) >= Rank(denial) {
      assert AuthorizeRule(all[|ps|], claims, now) == Refused(reason);
    } else {
      var i :| 0 <= i < |ps| && AuthorizeRule(ps[i], claims, now) == Refused(denial) &&
               forall j :: i < j < |ps| ==> RefusedBy(ps[j], claims, now, Rank(denial) - 1);
      assert AuthorizeRule(all[i], claims, now) == Refused(denial);
      forall j | i < j < |all| ensures RefusedBy(all[j], claims, now, Rank(denial) - 1) {
        if j < |ps| { assert all[j] == ps[j]; }
      }
    }
  }

  lemma {:induction false} DecideExplains(ps: seq<Publisher>, claims: PublishClaims, now: int, i: nat, denial: PublishDenial)
    requires i <= |ps| && Explains(ps[..i], claims, now, denial)
    ensures match Decide(ps, claims, now, i, denial)
      case NoRule(d) => Explains(ps, claims, now, d)
      case Chosen(k, grants) =>
        && i <= k < |ps| && AuthorizeRule(ps[k], claims, now) == Granted(grants)
        && forall j :: 0 <= j < k ==> AuthorizeRule(ps[j], claims, now).Refused?
    decreases |ps| - i
  {
    forall j | 0 <= j < i ensures AuthorizeRule(ps[j], claims, now).Refused? {
      assert RefusedBy(ps[..i][j], claims, now, Rank(denial));
    }
    if i == |ps| {
      assert ps[..i] == ps;
    } else {
      match AuthorizeRule(ps[i], claims, now)
      case Granted(_) =>
      case Refused(reason) =>
        ExplainsNext(ps[..i], ps[i], claims, now, denial);
        assert ps[..i + 1] == ps[..i] + [ps[i]];
        DecideExplains(ps, claims, now, i + 1, if Rank(reason) >= Rank(denial) then reason else denial);
    }
  }

  /** The decision, from the claims: the first rule that accepts them, with a write grant on its projects; and when none
      does, the most specific reason. */
  lemma DecisionExact(ps: seq<Publisher>, claims: PublishClaims, now: int)
    ensures match Decision(ps, claims, now)
      case Chosen(k, grants) => FirstAccepting(ps, claims, now, k) && grants == [Grant(ps[k].projects, {Write})]
      case NoRule(d) => (forall i :: 0 <= i < |ps| ==> !Accepts(ps[i], claims, now)) && Reason(ps, claims, now, d)
  {
    DecideExplains(ps, claims, now, 0, UnknownIssuer);
    forall i | 0 <= i < |ps| ensures AuthorizeRule(ps[i], claims, now).Refused? <==> !Accepts(ps[i], claims, now) {
      RuleExact(ps[i], claims, now);
    }
    match Decision(ps, claims, now)
    case Chosen(k, grants) => RuleExact(ps[k], claims, now);
    case NoRule(d) => DenialExact(ps, claims, now, d);
  }

  /** What each denial tells a job. */
  ghost predicate Reason(ps: seq<Publisher>, claims: PublishClaims, now: int, d: PublishDenial) {
    match d
    case UnknownIssuer => forall i :: 0 <= i < |ps| ==> ps[i].issuer != claims.issuer
    case WrongAudience =>
      && (exists i :: 0 <= i < |ps| && ps[i].issuer == claims.issuer)
      && forall i :: 0 <= i < |ps| ==> !Addressed(ps[i], claims)
    case Expired => now >= claims.expiresAt && exists i :: 0 <= i < |ps| && Addressed(ps[i], claims)
    case WrongSubject =>
      && now < claims.expiresAt
      && (exists i :: 0 <= i < |ps| && Addressed(ps[i], claims))
      && forall i :: 0 <= i < |ps| ==> !Speaks(ps[i], claims)
    case ClaimMismatch(claim) =>
      && now < claims.expiresAt
      && exists i :: 0 <= i < |ps| && Speaks(ps[i], claims) && Lacks(ps[i], claims, claim) &&
           forall j :: i < j < |ps| ==> !Speaks(ps[j], claims)
  }

  lemma DenialExact(ps: seq<Publisher>, claims: PublishClaims, now: int, d: PublishDenial)
    requires Explains(ps, claims, now, d)
    ensures Reason(ps, claims, now, d)
  {
    if ps != [] {
      var i :| 0 <= i < |ps| && AuthorizeRule(ps[i], claims, now) == Refused(d) &&
               forall j :: i < j < |ps| ==> RefusedBy(ps[j], claims, now, Rank(d) - 1);
      RuleExact(ps[i], claims, now);
      forall j | 0 <= j < |ps| ensures Stage(ps[j], claims, now) <= Rank(d) && (i < j ==> Stage(ps[j], claims, now) < Rank(d)) {
        assert RefusedBy(ps[j], claims, now, Rank(d));
        RuleExact(ps[j], claims, now);
      }
    }
  }

  /** How far a rule gets with these claims. */
  ghost function Stage(p: Publisher, claims: PublishClaims, now: int): nat {
    if p.issuer != claims.issuer then 0 else if !Addressed(p, claims) then 1
    else if now >= claims.expiresAt then 2 else if !Speaks(p, claims) then 3 else 4
  }
}
