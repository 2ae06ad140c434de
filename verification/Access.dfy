/** Read access of the neutral surfaces: search predicates and per-project decisions
    (crates/peryx-driver/src/access.rs). */
module Access {
  import opened Common
  import opened Acl
  import Globs

  datatype Index = Index(route: Text, acl: IndexAcl)

  /** What the request presented: a Basic credential to resolve per index, or grants from a verified bearer token. */
  datatype Credential = AclCredential(basic: Option<Basic>, now: int) | BearerCredential(grants: seq<Grant>)

  datatype IndexCredential = Public | ByAcl(principal: Principal) | ByBearer(grants: seq<Grant>)

  datatype SearchPattern = SearchPattern(route: string, glob: string)

  function ForIndex(credential: Credential, index: Index): IndexCredential {
    if index.acl.anonymousRead then Public
    else
      match credential
      case AclCredential(basic, now) => ByAcl(Identify(index.acl, basic, now))
      case BearerCredential(grants) => ByBearer(grants)
  }

  function ResourcePrefix(route: string): string {
    if route == "" then route else route + "/"
  }

  function ResourceName(route: string, project: string): (name: string)
    ensures name == ResourcePrefix(route) + project
  {
    if route == "" then project else route + "/" + project
  }

  /** Prevents a repository grant from exposing its siblings. */
  function AuthorizeProject(credential: Credential, index: Index, project: string): Decision {
    match ForIndex(credential, index)
    case Public => Allowed
    case ByAcl(principal) => Authorize(principal, index.acl, Some(project), Read)
    case ByBearer(grants) => AuthorizeGrants(grants, Some(ResourceName(index.route, project)), Read)
  }

  /** Avoids index enumeration when the credential holds no possible read. */
  ghost function AuthorizeAnyProject(credential: Credential, index: Index): Decision {
    match ForIndex(credential, index)
    case Public => Allowed
    case ByAcl(principal) => Authorize(principal, index.acl, None, Read)
    case ByBearer(grants) =>
      if exists i, j :: 0 <= i < |grants| && Read in grants[i].actions && 0 <= j < |grants[i].projects| &&
                        Globs.Remainders(grants[i].projects[j], ResourcePrefix(index.route)) != []
      then Allowed else Denied(Forbidden)
  }

  /** The check as it runs: a bearer token's candidate patterns are simulated over the resource prefix until one
      can still match. */
  method AuthorizeAny(credential: Credential, index: Index) returns (decision: Decision)
    ensures decision == AuthorizeAnyProject(credential, index)
  {
    match ForIndex(credential, index)
    case Public => decision := Allowed;
    case ByAcl(principal) => decision := Authorize(principal, index.acl, None, Read);
    case ByBearer(grants) =>
      var prefix := ResourcePrefix(index.route);
      for i := 0 to |grants|
        invariant forall k, j :: 0 <= k < i && Read in grants[k].actions && 0 <= j < |grants[k].projects| ==>
          Globs.Remainders(grants[k].projects[j], prefix) == []
      {
        if Read in grants[i].actions {
          for j := 0 to |grants[i].projects|
            invariant forall k :: 0 <= k < j ==> Globs.Remainders(grants[i].projects[k], prefix) == []
          {
            var possible := Globs.MatchesPrefix(grants[i].projects[j], prefix);
            if possible { return Allowed; }
          }
        }
      }
      decision := Denied(Forbidden);
  }

  // ----- The decisions, from the request alone -----

  /** A password reads a project of a private index exactly when it permits it: the first unexpired token with that
      secret has a name whose first token lists reading and a pattern of the project. The denials tell whether a token
      answers to the password, and if not, whether any could read. */
  lemma PasswordDecision(credential: Credential, index: Index, project: string)
    requires credential.AclCredential? && !index.acl.anonymousRead
    ensures var decision, tokens := AuthorizeProject(credential, index, project), index.acl.tokens;
      && (decision == Allowed <==>
          credential.basic.Some? && PasswordPermits(tokens, credential.basic.value.password, credential.now, Some(project), Read))
      && (decision == Denied(Unauthenticated) <==> !Answers(tokens, credential.basic, credential.now) && SomeoneMay(tokens, Read))
      && (decision == Denied(Unavailable) <==> !Answers(tokens, credential.basic, credential.now) && !SomeoneMay(tokens, Read))
  {
    CredentialExact(index.acl, credential.basic, credential.now, Some(project), Read);
  }

  /** A bearer token reads a project of a private index exactly when some read pattern matches its name under the
      index's route, and is otherwise forbidden; a public index is read by anyone. */
  lemma BearerDecision(credential: Credential, index: Index, project: string)
    ensures index.acl.anonymousRead ==> AuthorizeProject(credential, index, project) == Allowed
    ensures credential.BearerCredential? && !index.acl.anonymousRead ==>
      AuthorizeProject(credential, index, project) ==
        if Permits(credential.grants, Some(if index.route == "" then project else index.route + "/" + project), Read)
        then Allowed else Denied(Forbidden)
  {
  }

  /** So a grant for one project exposes no sibling: without a star, its patterns read the projects they spell, under the
      route they spell, and nothing else. */
  lemma LiteralGrantsReadWhatTheySpell(credential: Credential, index: Index, project: string)
    requires credential.BearerCredential? && !index.acl.anonymousRead && index.route != ""
    requires forall g, p :: 0 <= g < |credential.grants| && 0 <= p < |credential.grants[g].projects| ==>
      Globs.StarFree(credential.grants[g].projects[p])
    ensures AuthorizeProject(credential, index, project).Allowed? <==>
      exists g, p :: 0 <= g < |credential.grants| && Read in credential.grants[g].actions &&
        0 <= p < |credential.grants[g].projects| && credential.grants[g].projects[p] == index.route + "/" + project
  {
    var name := index.route + "/" + project;
    BearerDecision(credential, index, project);
    forall g, p | 0 <= g < |credential.grants| && 0 <= p < |credential.grants[g].projects|
      ensures Globs.Matches(credential.grants[g].projects[p], name) <==> credential.grants[g].projects[p] == name
    {
      Globs.LiteralMatches(credential.grants[g].projects[p], name);
    }
  }

  /** The index-wide check: for a password, whether its token lists reading at all, with the same denials as for a
      project; a bearer token that fails it is forbidden. */
  lemma AnyDecision(credential: Credential, index: Index)
    ensures index.acl.anonymousRead ==> AuthorizeAnyProject(credential, index) == Allowed
    ensures credential.BearerCredential? ==> AuthorizeAnyProject(credential, index) in {Allowed, Denied(Forbidden)}
    ensures credential.AclCredential? && !index.acl.anonymousRead ==>
      var decision, tokens := AuthorizeAnyProject(credential, index), index.acl.tokens;
      && (decision == Allowed <==>
          credential.basic.Some? && PasswordPermits(tokens, credential.basic.value.password, credential.now, None, Read))
      && (decision == Denied(Unauthenticated) <==> !Answers(tokens, credential.basic, credential.now) && SomeoneMay(tokens, Read))
      && (decision == Denied(Unavailable) <==> !Answers(tokens, credential.basic, credential.now) && !SomeoneMay(tokens, Read))
  {
    if credential.AclCredential? && !index.acl.anonymousRead {
      CredentialExact(index.acl, credential.basic, credential.now, None, Read);
    }
  }

  // ----- search_access -----

  /** The patterns of the read grants, in grant order. */
  function ReadGlobs(grants: seq<Grant>): seq<Text> {
    if grants == [] then [] else (if Read in grants[0].actions then grants[0].projects else []) + ReadGlobs(grants[1..])
  }

  /** The residuals of each pattern after the resource prefix, in order. */
  ghost function Residuals(globs: seq<string>, prefix: string): seq<string> {
    if globs == [] then [] else Globs.Remainders(globs[0], prefix) + Residuals(globs[1..], prefix)
  }

  ghost function IndexGlobs(credential: Credential, index: Index): seq<string> {
    match ForIndex(credential, index)
    case Public => ["*"]
    case ByAcl(principal) => ReadGlobs(Grants(index.acl, principal))
    case ByBearer(grants) => Residuals(ReadGlobs(grants), ResourcePrefix(index.route))
  }

  function Routed(route: string, globs: seq<string>): (r: seq<SearchPattern>)
    ensures |r| == |globs| && forall i :: 0 <= i < |globs| ==> r[i] == SearchPattern(route, globs[i])
  {
    seq(|globs|, i requires 0 <= i < |globs| => SearchPattern(route, globs[i]))
  }

  ghost function Patterns(credential: Credential, indexes: seq<Index>): seq<SearchPattern> {
    if indexes == [] then []
    else Routed(indexes[0].route, IndexGlobs(credential, indexes[0])) + Patterns(credential, indexes[1..])
  }

  /** A search hit at (route, project) is visible under the emitted patterns. */
  ghost predicate Visible(patterns: seq<SearchPattern>, route: string, project: string) {
    exists i :: 0 <= i < |patterns| && patterns[i].route == route && Globs.Matches(patterns[i].glob, project)
  }

  /** A hit is visible exactly when an index served under its route authorizes the project. */
  ghost predicate VisibleIffAuthorized(patterns: seq<SearchPattern>, credential: Credential, indexes: seq<Index>) {
    forall route, project :: Visible(patterns, route, project) <==>
      exists k :: 0 <= k < |indexes| && indexes[k].route == route && AuthorizeProject(credential, indexes[k], project).Allowed?
  }

  /** Push every index's patterns onto one list. A hit is visible exactly when the per-project decision of an
      index served under that route allows it. */
  method SearchAccess(credential: Credential, indexes: seq<Index>) returns (patterns: seq<SearchPattern>)
    ensures patterns == Patterns(credential, indexes)
    ensures VisibleIffAuthorized(patterns, credential, indexes)
  {
    patterns := [];
    for n := 0 to |indexes|
      invariant patterns == Patterns(credential, indexes[..n])
    {
      patterns := PushIndex(patterns, credential, indexes[n]);
      PatternsSnoc(credential, indexes[..n], indexes[n]);
      assert indexes[..n + 1] == indexes[..n] + [indexes[n]];
    }
    assert indexes[..|indexes|] == indexes;
    SearchAgreesEverywhere(credential, indexes);
  }

  lemma {:induction false} PatternsSnoc(credential: Credential, indexes: seq<Index>, last: Index)
    ensures Patterns(credential, indexes + [last]) ==
            Patterns(credential, indexes) + Routed(last.route, IndexGlobs(credential, last))
    decreases |indexes|
  {
    var own := Routed(last.route, IndexGlobs(credential, last));
    if indexes == [] {
      assert indexes + [last] == [last] && [last][1..] == [];
      assert own + [] == own && [] + own == own;
    } else {
      PatternsSnoc(credential, indexes[1..], last);
      assert (indexes + [last])[1..] == indexes[1..] + [last];
      var first := Routed(indexes[0].route, IndexGlobs(credential, indexes[0]));
      assert first + (Patterns(credential, indexes[1..]) + own) == first + Patterns(credential, indexes[1..]) + own;
    }
  }

  /** One index's share of the list. */
  method PushIndex(before: seq<SearchPattern>, credential: Credential, index: Index) returns (patterns: seq<SearchPattern>)
    ensures patterns == before + Routed(index.route, IndexGlobs(credential, index))
  {
    match ForIndex(credential, index)
    case Public =>
      patterns := before + [SearchPattern(index.route, "*")];
    case ByAcl(principal) =>
      patterns := before + Routed(index.route, ReadGlobs(Grants(index.acl, principal)));
    case ByBearer(grants) =>
      patterns := PushResiduals(before, index.route, ReadGlobs(grants), ResourcePrefix(index.route));
  }

  /** The bearer branch: each read pattern contributes its residuals after the resource prefix. */
  method PushResiduals(before: seq<SearchPattern>, route: string, globs: seq<string>, prefix: string)
    returns (patterns: seq<SearchPattern>)
    ensures patterns == before + Routed(route, Residuals(globs, prefix))
  {
    var rests := [];
    assert globs[0..] == globs;
    for g := 0 to |globs|
      invariant rests + Residuals(globs[g..], prefix) == Residuals(globs, prefix)
    {
      assert globs[g..][0] == globs[g] && globs[g..][1..] == globs[g + 1..];
      var more := Globs.RemaindersAfter(globs[g], prefix);
      assert rests + (more + Residuals(globs[g + 1..], prefix)) == rests + more + Residuals(globs[g + 1..], prefix);
      rests := rests + more;
    }
    patterns := before + Routed(route, rests);
  }

  ghost predicate SomeMatches(globs: seq<string>, s: string) {
    exists i :: 0 <= i < |globs| && Globs.Matches(globs[i], s)
  }

  lemma SomeMatchesAppend(a: seq<string>, b: seq<string>, s: string)
    ensures SomeMatches(a + b, s) <==> SomeMatches(a, s) || SomeMatches(b, s)
  {
    if SomeMatches(a, s) {
      var i :| 0 <= i < |a| && Globs.Matches(a[i], s);
      assert (a + b)[i] == a[i];
    }
    if SomeMatches(b, s) {
      var i :| 0 <= i < |b| && Globs.Matches(b[i], s);
      assert (a + b)[|a| + i] == b[i];
    }
  }

  /** The read globs cover a name exactly when some grant allows reading it. */
  lemma {:induction false} ReadGlobsCover(grants: seq<Grant>, name: string)
    ensures SomeMatches(ReadGlobs(grants), name) <==>
            exists i :: 0 <= i < |grants| && Allows(grants[i], Some(name), Read)
    decreases |grants|
  {
    if grants != [] {
      var own := if Read in grants[0].actions then grants[0].projects else [];
      SomeMatchesAppend(own, ReadGlobs(grants[1..]), name);
      ReadGlobsCover(grants[1..], name);
      assert Allows(grants[0], Some(name), Read) <==> SomeMatches(own, name);
      if i :| 0 <= i < |grants| && Allows(grants[i], Some(name), Read) {
        if i > 0 { assert grants[1..][i - 1] == grants[i]; }
      }
      if i :| 0 <= i < |grants[1..]| && Allows(grants[1..][i], Some(name), Read) {
        assert grants[i + 1] == grants[1..][i];
      }
    }
  }

  /** Residuals after the prefix match a project exactly when the patterns match the whole resource name. */
  lemma {:induction false} ResidualsCover(globs: seq<string>, prefix: string, project: string)
    ensures SomeMatches(Residuals(globs, prefix), project) <==> SomeMatches(globs, prefix + project)
    decreases |globs|
  {
    if globs != [] {
      var own := Globs.Remainders(globs[0], prefix);
      SomeMatchesAppend(own, Residuals(globs[1..], prefix), project);
      ResidualsCover(globs[1..], prefix, project);
      Globs.ResidualsExact(globs[0], prefix, project);
      assert SomeMatches(own, project) <==> exists r :: r in own && Globs.Matches(r, project);
      SomeMatchesAppend([globs[0]], globs[1..], prefix + project);
      assert globs == [globs[0]] + globs[1..];
      assert SomeMatches([globs[0]], prefix + project) <==> Globs.Matches(globs[0], prefix + project) by {
        assert [globs[0]][0] == globs[0];
      }
    }
  }

  /** The two read paths agree: some glob emitted for an index matches a project exactly when the per-project
      check allows it, for every credential, index and project name. */
  lemma IndexAgrees(credential: Credential, index: Index, project: string)
    ensures SomeMatches(IndexGlobs(credential, index), project) <==> AuthorizeProject(credential, index, project).Allowed?
  {
    match ForIndex(credential, index) {
      case Public =>
        Globs.OneStar(project);
        assert ["*"][0] == [Globs.STAR];
      case ByAcl(principal) =>
        ReadGlobsCover(Grants(index.acl, principal), project);
        AuthorizeReadsGrants(principal, index.acl, Some(project), Read);
      case ByBearer(grants) =>
        ResidualsCover(ReadGlobs(grants), ResourcePrefix(index.route), project);
        ReadGlobsCover(grants, ResourceName(index.route, project));
    }
  }

  lemma {:induction false} SearchAgrees(credential: Credential, indexes: seq<Index>, route: string, project: string)
    ensures Visible(Patterns(credential, indexes), route, project) <==>
      exists k :: 0 <= k < |indexes| && indexes[k].route == route && AuthorizeProject(credential, indexes[k], project).Allowed?
    decreases |indexes|
  {
    if indexes != [] {
      var index, rest := indexes[0], indexes[1..];
      var globs := IndexGlobs(credential, index);
      SearchAgrees(credential, rest, route, project);
      IndexAgrees(credential, index, project);
      VisibleAppend(Routed(index.route, globs), Patterns(credential, rest), route, project);
      assert Visible(Routed(index.route, globs), route, project) <==> index.route == route && SomeMatches(globs, project) by {
        if index.route == route && SomeMatches(globs, project) {
          var i :| 0 <= i < |globs| && Globs.Matches(globs[i], project);
          assert Routed(index.route, globs)[i].glob == globs[i];
        }
      }
      if k :| 0 <= k < |indexes| && indexes[k].route == route && AuthorizeProject(credential, indexes[k], project).Allowed? {
        if k > 0 { assert rest[k - 1] == indexes[k]; }
      }
      if k :| 0 <= k < |rest| && rest[k].route == route && AuthorizeProject(credential, rest[k], project).Allowed? {
        assert indexes[k + 1] == rest[k];
      }
    }
  }

  lemma SearchAgreesEverywhere(credential: Credential, indexes: seq<Index>)
    ensures VisibleIffAuthorized(Patterns(credential, indexes), credential, indexes)
  {
    forall route, project ensures Visible(Patterns(credential, indexes), route, project) <==>
      exists k :: 0 <= k < |indexes| && indexes[k].route == route && AuthorizeProject(credential, indexes[k], project).Allowed?
    {
      SearchAgrees(credential, indexes, route, project);
    }
  }

  lemma VisibleAppend(a: seq<SearchPattern>, b: seq<SearchPattern>, route: string, project: string)
    ensures Visible(a + b, route, project) <==> Visible(a, route, project) || Visible(b, route, project)
  {
    if Visible(a, route, project) {
      var i :| 0 <= i < |a| && a[i].route == route && Globs.Matches(a[i].glob, project);
      assert (a + b)[i] == a[i];
    }
    if Visible(b, route, project) {
      var i :| 0 <= i < |b| && b[i].route == route && Globs.Matches(b[i].glob, project);
      assert (a + b)[|a| + i] == b[i];
    }
  }

  // ----- authorize_any_project -----

  /** Some project name, which is text, can be read. */
  ghost predicate SomeProjectReadable(credential: Credential, index: Index) {
    exists project: Text :: AuthorizeProject(credential, index, project).Allowed?
  }

  lemma PrefixIsText(route: Text)
    ensures ValidUtf8(ResourcePrefix(route))
  {
    if route != "" {
      assert ValidUtf8("/");
      TextAppend(route, "/");
    }
  }

  /** For a bearer credential the index-wide check passes exactly when some project name is readable. */
  lemma BearerAnyIsSome(credential: Credential, index: Index)
    requires ForIndex(credential, index).ByBearer?
    ensures AuthorizeAnyProject(credential, index).Allowed? <==> SomeProjectReadable(credential, index)
  {
    if AuthorizeAnyProject(credential, index).Allowed? { var _ := BearerFindsProject(credential, index); }
    if SomeProjectReadable(credential, index) {
      var project: Text :| AuthorizeProject(credential, index, project).Allowed?;
      BearerProjectIsPossible(credential, index, project);
    }
  }

  /** A pattern that can still match after the resource prefix is completed by one of its own remainders. */
  lemma BearerFindsProject(credential: Credential, index: Index) returns (project: string)
    requires ForIndex(credential, index).ByBearer? && AuthorizeAnyProject(credential, index).Allowed?
    ensures ValidUtf8(project) && AuthorizeProject(credential, index, project).Allowed?
  {
    var grants, prefix := ForIndex(credential, index).grants, ResourcePrefix(index.route);
    var i, j :| 0 <= i < |grants| && Read in grants[i].actions && 0 <= j < |grants[i].projects| &&
                Globs.Remainders(grants[i].projects[j], prefix) != [];
    PrefixIsText(index.route);
    project := Globs.TextCompletes(grants[i].projects[j], prefix);
    assert Covers(grants[i], ResourceName(index.route, project));
    assert Allows(grants[i], Some(ResourceName(index.route, project)), Read);
  }

  lemma BearerProjectIsPossible(credential: Credential, index: Index, project: string)
    requires ForIndex(credential, index).ByBearer? && AuthorizeProject(credential, index, project).Allowed?
    ensures AuthorizeAnyProject(credential, index).Allowed?
  {
    var grants, name := ForIndex(credential, index).grants, ResourceName(index.route, project);
    var i :| 0 <= i < |grants| && Allows(grants[i], Some(name), Read);
    var j :| 0 <= j < |grants[i].projects| && Globs.Matches(grants[i].projects[j], name);
    Globs.PrefixPossible(grants[i].projects[j], ResourcePrefix(index.route));
  }

  /** For an index ACL a readable project implies the index-wide check, and the converse holds exactly when the
      principal's read grants are not all empty of patterns. */
  lemma AclAnyIsSome(credential: Credential, index: Index)
    requires ForIndex(credential, index).ByAcl?
    ensures SomeProjectReadable(credential, index) ==> AuthorizeAnyProject(credential, index).Allowed?
    ensures AuthorizeAnyProject(credential, index).Allowed? ==>
            (SomeProjectReadable(credential, index) <==>
             ReadGlobs(Grants(index.acl, ForIndex(credential, index).principal)) != [])
  {
    var principal := ForIndex(credential, index).principal;
    var grants := Grants(index.acl, principal);
    AuthorizeReadsGrants(principal, index.acl, None, Read);
    if SomeProjectReadable(credential, index) {
      var project: Text :| AuthorizeProject(credential, index, project).Allowed?;
      AuthorizeReadsGrants(principal, index.acl, Some(project), Read);
      var i :| 0 <= i < |grants| && Allows(grants[i], Some(project), Read);
      assert Allows(grants[i], None, Read);
      ReadGlobsCover(grants, project);
    }
    if ReadGlobs(grants) != [] {
      var g := ReadGlobs(grants)[0];
      Globs.MatchesItself(g);
      assert SomeMatches(ReadGlobs(grants), g);
      ReadGlobsCover(grants, g);
      AuthorizeReadsGrants(principal, index.acl, Some(g), Read);
      assert AuthorizeProject(credential, index, g).Allowed?;
    }
  }

  /** A read grant without a pattern passes the index-wide check of an ACL yet reads no project. */
  lemma EmptyGrantPassesAnyOnly()
    ensures exists credential, index ::
      && ForIndex(credential, index).ByAcl?
      && AuthorizeAnyProject(credential, index).Allowed?
      && !SomeProjectReadable(credential, index)
  {
    var token := NamedToken("ci", "s", [Grant([], {Read})], None);
    AsciiIsText("pypi");
    var index := Index("pypi", IndexAcl(false, [token]));
    var credential := AclCredential(Some(Basic("u", "s")), 0);
    assert ForIndex(credential, index) == ByAcl(Named("ci"));
    assert Grants(index.acl, Named("ci")) == [Grant([], {Read})];
    assert Allows(Grants(index.acl, Named("ci"))[0], None, Read);
    AclAnyIsSome(credential, index);
    AuthorizeReadsGrants(Named("ci"), index.acl, None, Read);
    assert ReadGlobs([Grant([], {Read})]) == [] + ReadGlobs([Grant([], {Read})][1..]);
  }
}
