/** Who a request speaks as, what an index grants, and the decision between them
    (crates/peryx-identity/src/acl.rs). */
module Acl {
  import opened Common
  import Globs

  datatype Action = Read | Write | Delete
  datatype Principal = Anonymous | Named(subject: string)
  datatype Denial = Unavailable | Unauthenticated | Forbidden
  datatype Decision = Allowed | Denied(reason: Denial)

  /** A set of actions over project patterns. */
  datatype Grant = Grant(projects: seq<Text>, actions: set<Action>)

  datatype NamedToken = NamedToken(name: string, secret: string, grants: seq<Grant>, expiresAt: Option<int>)
  datatype IndexAcl = IndexAcl(anonymousRead: bool, tokens: seq<NamedToken>)

  /** What a parsed Basic credential carries; an absent or unparsable header is `None`. */
  datatype Basic = Basic(user: string, password: string)

  /** Some pattern of the grant covers `project`. */
  predicate Covers(grant: Grant, project: string) {
    exists i :: 0 <= i < |grant.projects| && Globs.Matches(grant.projects[i], project)
  }

  /** With no project yet the weaker question is asked: may the action be taken on some project? */
  predicate Allows(grant: Grant, project: Option<string>, action: Action) {
    action in grant.actions && (project.None? || Covers(grant, project.value))
  }

  function AuthorizeGrants(grants: seq<Grant>, project: Option<string>, action: Action): Decision {
    if exists i :: 0 <= i < |grants| && Allows(grants[i], project, action) then Allowed else Denied(Forbidden)
  }

  predicate TokenLive(token: NamedToken, now: int) {
    token.expiresAt.None? || now < token.expiresAt.value
  }

  /** The first live token whose secret is the presented password names the principal. */
  function FindSecret(tokens: seq<NamedToken>, password: string, now: int): Principal {
    if tokens == [] then Anonymous
    else if TokenLive(tokens[0], now) && tokens[0].secret == password then Named(tokens[0].name)
    else FindSecret(tokens[1..], password, now)
  }

  function Identify(acl: IndexAcl, credentials: Option<Basic>, now: int): Principal {
    if credentials.None? then Anonymous else FindSecret(acl.tokens, credentials.value.password, now)
  }

  /** The first token of that name. */
  function TokenNamed(tokens: seq<NamedToken>, name: string): Option<NamedToken> {
    if tokens == [] then None
    else if tokens[0].name == name then Some(tokens[0])
    else TokenNamed(tokens[1..], name)
  }

  /** An anonymous request holds no grant: an anonymous read is `anonymousRead`, not a grant. */
  function Grants(acl: IndexAcl, principal: Principal): seq<Grant> {
    match principal
    case Anonymous => []
    case Named(subject) =>
      match TokenNamed(acl.tokens, subject)
      case None => []
      case Some(token) => token.grants
  }

  predicate GrantsToAnyone(acl: IndexAcl, action: Action) {
    exists i, j :: 0 <= i < |acl.tokens| && 0 <= j < |acl.tokens[i].grants| && action in acl.tokens[i].grants[j].actions
  }

  function Authorize(principal: Principal, acl: IndexAcl, project: Option<string>, action: Action): Decision {
    if action == Read && acl.anonymousRead then Allowed
    else
      match principal
      case Named(subject) =>
        (match TokenNamed(acl.tokens, subject)
         case None => Denied(Forbidden)
         case Some(token) => AuthorizeGrants(token.grants, project, action))
      case Anonymous => if GrantsToAnyone(acl, action) then Denied(Unauthenticated) else Denied(Unavailable)
  }

  // ----- Whom a credential resolves to -----

  /** The presented password is this token's secret, and the token has not expired. */
  ghost predicate Presents(token: NamedToken, password: string, now: int) {
    (token.expiresAt.Some? ==> now < token.expiresAt.value) && password == token.secret
  }

  /** Token `i` is the first that answers to the password. */
  ghost predicate FirstPresented(tokens: seq<NamedToken>, password: string, now: int, i: int) {
    0 <= i < |tokens| && Presents(tokens[i], password, now) && forall j :: 0 <= j < i ==> !Presents(tokens[j], password, now)
  }

  /** Token `i` is the first of that name. */
  ghost predicate FirstNamed(tokens: seq<NamedToken>, name: string, i: int) {
    0 <= i < |tokens| && tokens[i].name == name && forall j :: 0 <= j < i ==> tokens[j].name != name
  }

  lemma {:induction false} FindSecretIsFirst(tokens: seq<NamedToken>, password: string, now: int)
    ensures FindSecret(tokens, password, now) == Anonymous <==> forall i :: 0 <= i < |tokens| ==> !Presents(tokens[i], password, now)
    ensures forall i :: FirstPresented(tokens, password, now, i) ==> FindSecret(tokens, password, now) == Named(tokens[i].name)
    decreases |tokens|
  {
    if tokens != [] {
      var rest := tokens[1..];
      FindSecretIsFirst(rest, password, now);
      assert forall i :: 0 <= i < |rest| ==> rest[i] == tokens[i + 1];
      if forall i :: 0 <= i < |rest| ==> !Presents(rest[i], password, now) {
        forall i | 1 <= i < |tokens| ensures !Presents(tokens[i], password, now) { assert tokens[i] == rest[i - 1]; }
      }
      forall i | 0 < i && FirstPresented(tokens, password, now, i) ensures FirstPresented(rest, password, now, i - 1) {
        forall j | 0 <= j < i - 1 ensures !Presents(rest[j], password, now) { assert rest[j] == tokens[j + 1]; }
      }
    }
  }

  /** Some token answers to the password exactly when a first one does. */
  lemma {:induction false} SomeIsFirst(tokens: seq<NamedToken>, password: string, now: int, k: nat) returns (i: int)
    requires k < |tokens| && Presents(tokens[k], password, now)
    ensures FirstPresented(tokens, password, now, i)
    decreases k
  {
    if j :| 0 <= j < k && Presents(tokens[j], password, now) { i := SomeIsFirst(tokens, password, now, j); } else { i := k; }
  }

  /** Whom a Basic credential speaks as: the name of the first unexpired token whose secret is the presented password,
      and nobody exactly when there is none or no credential. The user name plays no part. */
  lemma IdentifyExact(acl: IndexAcl, credentials: Option<Basic>, now: int)
    ensures Identify(acl, credentials, now) == Anonymous <==>
            credentials.None? || forall i :: 0 <= i < |acl.tokens| ==> !Presents(acl.tokens[i], credentials.value.password, now)
    ensures forall n :: Identify(acl, credentials, now) == Named(n) <==>
            credentials.Some? &&
            exists i :: FirstPresented(acl.tokens, credentials.value.password, now, i) && acl.tokens[i].name == n
  {
    if credentials.Some? {
      var password := credentials.value.password;
      FindSecretIsFirst(acl.tokens, password, now);
      if k :| 0 <= k < |acl.tokens| && Presents(acl.tokens[k], password, now) {
        var _ := SomeIsFirst(acl.tokens, password, now, k);
      }
    }
  }

  lemma {:induction false} TokenNamedIsFirst(tokens: seq<NamedToken>, name: string)
    ensures TokenNamed(tokens, name).None? <==> forall i :: 0 <= i < |tokens| ==> tokens[i].name != name
    ensures TokenNamed(tokens, name).Some? ==>
            exists i :: FirstNamed(tokens, name, i) && TokenNamed(tokens, name) == Some(tokens[i])
    decreases |tokens|
  {
    if tokens != [] {
      if tokens[0].name == name {
        assert FirstNamed(tokens, name, 0);
      } else {
        var rest := tokens[1..];
        TokenNamedIsFirst(rest, name);
        assert forall i :: 0 <= i < |rest| ==> rest[i] == tokens[i + 1];
        if TokenNamed(rest, name).Some? {
          var i :| FirstNamed(rest, name, i) && TokenNamed(rest, name) == Some(rest[i]);
          forall j | 0 <= j < i + 1 ensures tokens[j].name != name { if j > 0 { assert tokens[j] == rest[j - 1]; } }
          assert tokens[i + 1] == rest[i] && FirstNamed(tokens, name, i + 1);
        } else {
          forall i | 1 <= i < |tokens| ensures tokens[i].name != name { assert tokens[i] == rest[i - 1]; }
        }
      }
    }
  }

  // ----- What a decision says -----

  /** Some grant lists the action and, when a project is given, a pattern that matches it. */
  ghost predicate Permits(grants: seq<Grant>, project: Option<string>, action: Action) {
    exists g :: 0 <= g < |grants| && action in grants[g].actions &&
      (project.None? || exists p :: 0 <= p < |grants[g].projects| && Globs.Matches(grants[g].projects[p], project.value))
  }

  /** Some token lists the action, whatever its expiry. */
  ghost predicate SomeoneMay(tokens: seq<NamedToken>, action: Action) {
    exists t, g :: 0 <= t < |tokens| && 0 <= g < |tokens[t].grants| && action in tokens[t].grants[g].actions
  }

  /** The whole decision. A request passes exactly when it is an anonymous read, or the first token of its principal's
      name holds a grant for the action and the project; a named principal is otherwise forbidden, and an anonymous one is
      told to authenticate exactly when some credential here could take the action. */
  lemma AuthorizeExact(principal: Principal, acl: IndexAcl, project: Option<string>, action: Action)
    ensures var decision := Authorize(principal, acl, project, action);
      var open := action == Read && acl.anonymousRead;
      && (decision == Allowed <==>
          open || (principal.Named? &&
                   exists i :: FirstNamed(acl.tokens, principal.subject, i) && Permits(acl.tokens[i].grants, project, action)))
      && (decision == Denied(Unauthenticated) <==> !open && principal.Anonymous? && SomeoneMay(acl.tokens, action))
      && (decision == Denied(Unavailable) <==> !open && principal.Anonymous? && !SomeoneMay(acl.tokens, action))
  {
    if principal.Named? {
      TokenNamedIsFirst(acl.tokens, principal.subject);
    }
  }

  /** The first unexpired token with this secret has a name whose first token holds a fitting grant. */
  ghost predicate PasswordPermits(tokens: seq<NamedToken>, password: string, now: int, project: Option<string>, action: Action) {
    exists i, k :: FirstPresented(tokens, password, now, i) && FirstNamed(tokens, tokens[i].name, k) &&
      Permits(tokens[k].grants, project, action)
  }

  /** Some unexpired token has the presented password as its secret. */
  ghost predicate Answers(tokens: seq<NamedToken>, credentials: Option<Basic>, now: int) {
    credentials.Some? && exists i :: 0 <= i < |tokens| && Presents(tokens[i], credentials.value.password, now)
  }

  /** What a credential may do, from the ACL alone. It passes exactly when its password permits the action, or the action
      is an anonymous read; otherwise it is forbidden if a token answers to the password, and if none does, told to
      authenticate or that the action is off here. */
  lemma CredentialExact(acl: IndexAcl, credentials: Option<Basic>, now: int, project: Option<string>, action: Action)
    requires !(action == Read && acl.anonymousRead)
    ensures var decision := Authorize(Identify(acl, credentials, now), acl, project, action);
      && (decision == Allowed <==>
          credentials.Some? && PasswordPermits(acl.tokens, credentials.value.password, now, project, action))
      && (decision == Denied(Unauthenticated) <==> !Answers(acl.tokens, credentials, now) && SomeoneMay(acl.tokens, action))
      && (decision == Denied(Unavailable) <==> !Answers(acl.tokens, credentials, now) && !SomeoneMay(acl.tokens, action))
  {
    var tokens := acl.tokens;
    IdentifyExact(acl, credentials, now);
    AuthorizeExact(Identify(acl, credentials, now), acl, project, action);
    if Answers(tokens, credentials, now) {
      var password := credentials.value.password;
      var some :| 0 <= some < |tokens| && Presents(tokens[some], password, now);
      var i := SomeIsFirst(tokens, password, now, some);
      assert forall j :: FirstPresented(tokens, password, now, j) ==> j == i;
    }
  }

  /** The decision, read off the grants a principal holds. */
  lemma AuthorizeReadsGrants(principal: Principal, acl: IndexAcl, project: Option<string>, action: Action)
    requires !(action == Read && acl.anonymousRead)
    ensures Authorize(principal, acl, project, action).Allowed? <==>
            exists i :: 0 <= i < |Grants(acl, principal)| && Allows(Grants(acl, principal)[i], project, action)
  {
    if principal.Named? && TokenNamed(acl.tokens, principal.subject).Some? {
      assert Grants(acl, principal) == TokenNamed(acl.tokens, principal.subject).value.grants;
    }
  }
}
