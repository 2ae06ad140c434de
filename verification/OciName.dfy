/** Parsing `/v2/<name>/<verb>/<reference>` paths whose name may contain slashes
    (crates/peryx-ecosystem-oci/src/name.rs). */
module OciName {
  import opened Common

  datatype Reference = Tag(tag: string) | DigestRef(digest: string)

  datatype OciRoute =
    | Catalog
    | Manifest(name: string, reference: Reference)
    | Blob(name: string, digest: string)
    | BlobContents(name: string, digest: string)
    | TagsList(name: string)
    | Referrers(name: string, digest: string)
    | UploadStart(name: string)
    | UploadSession(name: string, session: string)

  // ----- The name-component grammar -----

  predicate Lower(c: char) { 'a' <= c <= 'z' }
  predicate Digit(c: char) { '0' <= c <= '9' }
  predicate Alnum(c: char) { Lower(c) || Digit(c) }

  predicate Separator(s: string) {
    s == "." || s == "_" || s == "__" || (s != "" && forall i :: 0 <= i < |s| ==> s[i] == '-')
  }

  ghost predicate AlnumBetween(s: string, i: nat, k: nat)
    requires k <= |s|
  {
    forall j :: i <= j < k ==> Alnum(s[j])
  }

  /** A `<name>` component of the OCI Distribution Specification, "Pulling manifests": an alphanumeric run,
      then any number of (separator, alphanumeric run). */
  ghost predicate Component(s: string) { ComponentFrom(s, 0) }

  ghost predicate ComponentFrom(s: string, i: nat)
    decreases |s| - i, 1
  {
    exists k :: i < k <= |s| && AlnumBetween(s, i, k) && (k == |s| || SeparatedAt(s, k))
  }

  ghost predicate SeparatedAt(s: string, k: nat)
    requires k <= |s|
    decreases |s| - k, 0
  {
    exists m :: k < m <= |s| && Separator(s[k..m]) && ComponentFrom(s, m)
  }

  /** What may stand at `i` after an alphanumeric byte of a component. */
  ghost predicate Tail(s: string, i: nat)
    requires i <= |s|
    decreases |s| - i, 1
  {
    i == |s| || (if Alnum(s[i]) then Tail(s, i + 1) else TailSeparated(s, i))
  }

  ghost predicate TailSeparated(s: string, i: nat)
    requires i < |s|
    decreases |s| - i, 0
  {
    exists m :: i < m < |s| && Separator(s[i..m]) && Alnum(s[m]) && Tail(s, m)
  }

  lemma SeparatorBytes(s: string, i: nat, m: nat)
    requires i < m <= |s| && Separator(s[i..m])
    ensures forall j :: i <= j < m ==> !Alnum(s[j]) && s[j] != '/'
  {
    forall j | i <= j < m ensures !Alnum(s[j]) && s[j] != '/' { assert s[j] == s[i..m][j - i]; }
  }

  lemma {:induction false} TailAcrossRun(s: string, i: nat, k: nat)
    requires i <= k <= |s| && AlnumBetween(s, i, k)
    ensures Tail(s, i) <==> Tail(s, k)
    decreases k - i
  {
    if i < k { TailAcrossRun(s, i + 1, k); }
  }

  /** The grammar, read one byte at a time. */
  lemma {:induction false} ComponentIsTail(s: string, i: nat)
    ensures ComponentFrom(s, i) <==> i < |s| && Alnum(s[i]) && Tail(s, i)
    decreases |s| - i
  {
    if ComponentFrom(s, i) {
      var k :| i < k <= |s| && AlnumBetween(s, i, k) && (k == |s| || SeparatedAt(s, k));
      TailAcrossRun(s, i, k);
      if k < |s| {
        var m :| k < m <= |s| && Separator(s[k..m]) && ComponentFrom(s, m);
        ComponentIsTail(s, m);
        SeparatorBytes(s, k, m);
        assert TailSeparated(s, k);
      }
    }
    if i < |s| && Alnum(s[i]) && Tail(s, i) {
      var k := AlnumRun(s, i);
      TailAcrossRun(s, i, k);
      if k < |s| {
        var m :| k < m < |s| && Separator(s[k..m]) && Alnum(s[m]) && Tail(s, m);
        ComponentIsTail(s, m);
        assert SeparatedAt(s, k);
      }
    }
  }

  /** The end of the alphanumeric run starting at `i`. */
  lemma AlnumRun(s: string, i: nat) returns (k: nat)
    requires i < |s| && Alnum(s[i])
    ensures i < k <= |s| && AlnumBetween(s, i, k) && (k < |s| ==> !Alnum(s[k]))
  {
    k := i + 1;
    while k < |s| && Alnum(s[k])
      invariant i < k <= |s| && AlnumBetween(s, i, k)
    {
      k := k + 1;
    }
  }

  /** The scanning loop accepts exactly the component grammar. */
  method ValidNameComponent(component: string) returns (valid: bool)
    ensures valid <==> Component(component)
  {
    ComponentIsTail(component, 0);
    if component == "" || !Alnum(component[0]) || !Alnum(component[|component| - 1]) {
      if Component(component) { TailBytes(component, 0); }
      return false;
    }
    var index: nat := 0;
    while index < |component|
      invariant index <= |component|
      invariant Component(component) <==> Tail(component, index)
    {
      if Alnum(component[index]) {
        index := index + 1;
        continue;
      }
      var start := index;
      while index < |component| && !Alnum(component[index])
        invariant start <= index < |component|
        invariant forall i :: start <= i < index ==> !Alnum(component[i])
      {
        index := index + 1;
      }
      var separator := component[start..index];
      if separator != "." && separator != "_" && separator != "__" &&
         !(forall i :: 0 <= i < |separator| ==> separator[i] == '-') {
        return false;
      }
    }
    valid := true;
  }

  /** A component ends in an alphanumeric and holds no slash. */
  lemma {:induction false} TailBytes(s: string, i: nat)
    requires i <= |s| && Tail(s, i)
    ensures i == |s| || Alnum(s[|s| - 1])
    ensures forall j :: i <= j < |s| ==> s[j] != '/'
    decreases |s| - i
  {
    if i < |s| {
      if Alnum(s[i]) {
        TailBytes(s, i + 1);
      } else {
        var m :| i < m < |s| && Separator(s[i..m]) && Alnum(s[m]) && Tail(s, m);
        SeparatorBytes(s, i, m);
        TailBytes(s, m);
      }
    }
  }

  /** No component holds a slash or is a dot segment, so a name cannot escape a storage key or URL path. */
  lemma ComponentIsSafe(s: string)
    requires Component(s)
    ensures s != "" && s != "." && s != ".." && '/' !in s
  {
    ComponentIsTail(s, 0);
    TailBytes(s, 0);
  }

  // ----- Names, tags and digests -----

  /** Which texts may be a name component. Parsing and printing only rely on a component being a non-empty piece between
      slashes. */
  type Grammar = string -> bool

  ghost predicate Safe(g: Grammar) { forall s :: g(s) ==> Segment(s) }

  ghost function Oci(): Grammar { s => Component(s) }

  lemma OciIsSafe()
    ensures Safe(Oci())
  {
    forall s | Oci()(s) ensures Segment(s) { ComponentIsSafe(s); }
  }

  ghost predicate ValidComponents(g: Grammar, components: seq<string>) {
    forall i :: 0 <= i < |components| ==> g(components[i])
  }

  /** Join validated components back into the repository name, rejecting an empty or overlong one. */
  ghost function JoinName(g: Grammar, components: seq<string>): Option<string> {
    if components == [] || !ValidComponents(g, components) then None
    else if |Join(components, '/')| <= 255 then Some(Join(components, '/')) else None
  }

  ghost predicate ValidName(g: Grammar, name: string) {
    JoinName(g, Split(name, '/')) == Some(name)
  }

  predicate TagByte(c: char) { Alnum(c) || 'A' <= c <= 'Z' || c == '_' }

  predicate ValidTag(tag: string) {
    0 < |tag| <= 128 && TagByte(tag[0]) &&
    forall i :: 1 <= i < |tag| ==> TagByte(tag[i]) || tag[i] == '.' || tag[i] == '-'
  }

  predicate AlgorithmByte(c: char) { Alnum(c) || c == '+' || c == '.' || c == '_' || c == '-' }
  predicate EncodedByte(c: char) { Alnum(c) || c == '=' || c == '_' || c == '-' }

  /** A content digest `algorithm:encoded`, returned verbatim once shape-checked. */
  function ParseDigest(digest: string): (r: Option<string>)
    ensures r.Some? ==> r.value == digest && ':' in digest && '/' !in digest
  {
    match SplitOnce(digest, ':')
    case None => None
    case Some(parts) =>
      if parts.0 != "" && (forall i :: 0 <= i < |parts.0| ==> AlgorithmByte(parts.0[i])) &&
         parts.1 != "" && (forall i :: 0 <= i < |parts.1| ==> EncodedByte(parts.1[i]))
      then
        assert '/' !in parts.0 && '/' !in parts.1;
        Some(digest)
      else None
  }

  /** A reference with a colon must be a digest; otherwise it must be a tag. */
  function ParseReference(reference: string): Option<Reference> {
    if ':' in reference then
      (match ParseDigest(reference) case None => None case Some(d) => Some(DigestRef(d)))
    else if ValidTag(reference) then Some(Tag(reference)) else None
  }

  function Spelled(reference: Reference): string {
    match reference case Tag(t) => t case DigestRef(d) => d
  }

  // ----- classify -----

  ghost function ClassifySegments(g: Grammar, segments: seq<string>): Option<OciRoute> {
    var len := |segments|;
    if (exists i :: 0 <= i < len && segments[i] == "") || len < 2 then None
    else if len >= 3 && segments[len - 3] == "blobs" && (segments[len - 2] == "uploads" || segments[len - 1] == "contents") then
      ClassifyBlobs(JoinName(g, segments[..len - 3]), segments[len - 2], segments[len - 1])
    else
      ClassifyVerb(JoinName(g, segments[..len - 2]), segments[len - 2], segments[len - 1])
  }

  /** The two shapes anchored three from the end: an upload session, then the layer browser. */
  function ClassifyBlobs(name: Option<string>, middle: string, tail: string): Option<OciRoute> {
    if name.None? then None
    else if middle == "uploads" then Some(UploadSession(name.value, tail))
    else if ParseDigest(middle).Some? then Some(BlobContents(name.value, middle)) else None
  }

  /** The shapes anchored two from the end. */
  function ClassifyVerb(name: Option<string>, verb: string, tail: string): Option<OciRoute> {
    if name.None? then None
    else if verb == "blobs" && tail == "uploads" then Some(UploadStart(name.value))
    else if verb == "manifests" then
      (if ParseReference(tail).Some? then Some(Manifest(name.value, ParseReference(tail).value)) else None)
    else if verb == "blobs" then (if ParseDigest(tail).Some? then Some(Blob(name.value, tail)) else None)
    else if verb == "tags" && tail == "list" then Some(TagsList(name.value))
    else if verb == "referrers" then Some(Referrers(name.value, tail))
    else None
  }

  ghost function Classify(g: Grammar, path: string): Option<OciRoute> {
    if !("/v2/" <= path) then None
    else
      var rest := Trimmed(path[4..]);
      if rest == "_catalog" then Some(Catalog) else ClassifySegments(g, Split(rest, '/'))
  }

  /** One trailing slash dropped. */
  function Trimmed(s: string): (r: string)
    ensures s == r || s == r + "/"
    ensures (s == "" || s[|s| - 1] != '/') ==> r == s
  {
    if s != "" && s[|s| - 1] == '/' then s[..|s| - 1] else s
  }

  // ----- Printing -----

  /** The segments a route puts after its name. */
  function Suffix(route: OciRoute): seq<string>
    requires !route.Catalog?
  {
    match route
    case Manifest(_, reference) => ["manifests", Spelled(reference)]
    case Blob(_, digest) => ["blobs", digest]
    case BlobContents(_, digest) => ["blobs", digest, "contents"]
    case TagsList(_) => ["tags", "list"]
    case Referrers(_, digest) => ["referrers", digest]
    case UploadStart(_) => ["blobs", "uploads"]
    case UploadSession(_, session) => ["blobs", "uploads", session]
  }

  function Render(route: OciRoute): string {
    "/v2/" + Body(route)
  }

  function Body(route: OciRoute): string {
    if route.Catalog? then "_catalog" else Printed(route.name, Suffix(route))
  }

  function Printed(name: string, suffix: seq<string>): string
    requires suffix != []
  {
    name + "/" + Join(suffix, '/')
  }

  ghost predicate Segment(s: string) { s != "" && '/' !in s }

  /** The routes a client can address. */
  ghost predicate WellFormed(g: Grammar, route: OciRoute) {
    route.Catalog? || (ValidName(g, route.name) && WellReferenced(route))
  }

  ghost predicate WellReferenced(route: OciRoute) {
    match route
    case Manifest(_, reference) => ParseReference(Spelled(reference)) == Some(reference)
    case Blob(_, digest) => ParseDigest(digest).Some?
    case BlobContents(_, digest) => ParseDigest(digest).Some?
    case Referrers(_, digest) => Segment(digest)
    case UploadSession(_, session) => Segment(session)
    case _ => true
  }

  /** The routes the layer-browser shape `blobs/<digest>/contents` claims first: a manifest or referrers route under
      a name whose last component is `blobs`, with the tail `contents`. */
  ghost predicate Claimed(route: OciRoute) { !route.Catalog? && ClaimedUnder(route, Split(route.name, '/')) }

  ghost predicate ClaimedUnder(route: OciRoute, components: seq<string>) {
    && (route.Manifest? || route.Referrers?)
    && Suffix(route)[1] == "contents"
    && components != [] && components[|components| - 1] == "blobs"
  }

  // ----- The grammar of what a route carries -----

  const LOWER_AND_DIGITS := "abcdefghijklmnopqrstuvwxyz0123456789"
  const TAG_FIRST := LOWER_AND_DIGITS + "ABCDEFGHIJKLMNOPQRSTUVWXYZ_"

  ghost predicate Over(s: string, alphabet: string) { forall i :: 0 <= i < |s| ==> s[i] in alphabet }

  /** Runs with the separators between them. */
  function Spliced(runs: seq<string>, separators: seq<string>): string
    requires |runs| == |separators| + 1
  {
    if separators == [] then runs[0] else runs[0] + separators[0] + Spliced(runs[1..], separators[1..])
  }

  /** `[a-z0-9]+((\.|_|__|-+)[a-z0-9]+)*` */
  ghost predicate ComponentOf(s: string, runs: seq<string>, separators: seq<string>) {
    && |runs| == |separators| + 1 && s == Spliced(runs, separators)
    && (forall i :: 0 <= i < |runs| ==> runs[i] != "" && Over(runs[i], LOWER_AND_DIGITS))
    && forall i :: 0 <= i < |separators| ==> Parting(separators[i])
  }

  ghost predicate Parting(s: string) { s in {".", "_", "__"} || (|s| >= 1 && Over(s, "-")) }

  lemma RunExact(s: string, i: nat, k: nat)
    requires i <= k <= |s|
    ensures AlnumBetween(s, i, k) <==> Over(s[i..k], LOWER_AND_DIGITS)
  {
    var lower := LOWER_AND_DIGITS;
    forall c ensures Alnum(c) <==> c in lower { LowerExact(c); }
    assert forall j :: i <= j < k ==> s[j] == s[i..k][j - i];
  }

  /** The component grammar as its regular expression: runs of lower-case letters and digits with one separator between any
      two. */
  lemma ComponentExact(s: string)
    ensures Component(s) <==> exists runs, separators :: ComponentOf(s, runs, separators)
  {
    if Component(s) {
      var runs, separators := Parts(s, 0);
      assert s[0..] == s;
    }
    if runs, separators :| ComponentOf(s, runs, separators) {
      SplicedParses("", s, runs, separators);
      assert "" + s == s;
    }
  }

  lemma {:induction false} Parts(s: string, i: nat) returns (runs: seq<string>, separators: seq<string>)
    requires i <= |s| && ComponentFrom(s, i)
    ensures ComponentOf(s[i..], runs, separators)
    decreases |s| - i
  {
    var k :| i < k <= |s| && AlnumBetween(s, i, k) && (k == |s| || SeparatedAt(s, k));
    RunExact(s, i, k);
    if k == |s| {
      runs, separators := [s[i..k]], [];
    } else {
      var m :| k < m <= |s| && Separator(s[k..m]) && ComponentFrom(s, m);
      var rest, more := Parts(s, m);
      runs, separators := [s[i..k]] + rest, [s[k..m]] + more;
      assert runs[1..] == rest && separators[1..] == more;
      assert s[i..] == s[i..k] + s[k..m] + s[m..];
    }
  }

  lemma {:induction false} SplicedParses(before: string, s: string, runs: seq<string>, separators: seq<string>)
    requires ComponentOf(s, runs, separators)
    ensures ComponentFrom(before + s, |before|)
    decreases |separators|
  {
    var all, i := before + s, |before|;
    var k := i + |runs[0]|;
    assert all[i..k] == runs[0];
    RunExact(all, i, k);
    if separators == [] {
      assert k == |all|;
    } else {
      var m := k + |separators[0]|;
      var rest := Spliced(runs[1..], separators[1..]);
      assert all == before + runs[0] + separators[0] + rest && all[k..m] == separators[0];
      SplicedParses(before + runs[0] + separators[0], rest, runs[1..], separators[1..]);
      assert SeparatedAt(all, k);
    }
  }

  /** `[a-zA-Z0-9_][a-zA-Z0-9._-]{0,127}` */
  ghost predicate TagShape(t: string) { 1 <= |t| <= 128 && t[0] in TAG_FIRST && Over(t[1..], TAG_FIRST + ".-") }

  /** `[a-z0-9+._-]+:[a-z0-9=_-]+` */
  ghost predicate DigestShape(d: string) {
    exists algorithm, encoded :: DigestOf(d, algorithm, encoded)
  }

  ghost predicate DigestOf(d: string, algorithm: string, encoded: string) {
    && d == algorithm + ":" + encoded && algorithm != "" && encoded != ""
    && Over(algorithm, LOWER_AND_DIGITS + "+._-") && Over(encoded, LOWER_AND_DIGITS + "=_-")
  }

  /** One or more components between slashes, at most 255 bytes. */
  ghost predicate NameShape(name: string) {
    |name| <= 255 && exists components :: NameOf(name, components)
  }

  ghost predicate NameOf(name: string, components: seq<string>) {
    components != [] && name == Join(components, '/') && forall i :: 0 <= i < |components| ==> Component(components[i])
  }

  ghost predicate ReferenceShape(reference: Reference) {
    match reference
    case Tag(t) => TagShape(t)
    case DigestRef(d) => DigestShape(d)
  }

  lemma LowerExact(c: char)
    ensures Alnum(c) <==> c in LOWER_AND_DIGITS
  {
    InRange(c, 'a', "abcdefghijklmnopqrstuvwxyz");
    InRange(c, '0', "0123456789");
    assert LOWER_AND_DIGITS == "abcdefghijklmnopqrstuvwxyz" + "0123456789";
  }

  lemma TagFirstExact(c: char)
    ensures TagByte(c) <==> c in TAG_FIRST
  {
    LowerExact(c);
    InRange(c, 'A', "ABCDEFGHIJKLMNOPQRSTUVWXYZ");
    assert TAG_FIRST == LOWER_AND_DIGITS + ("ABCDEFGHIJKLMNOPQRSTUVWXYZ" + "_");
  }

  /** A run of consecutive characters holds what lies between its ends. */
  lemma InRange(c: char, first: char, run: string)
    requires forall i :: 0 <= i < |run| ==> run[i] as int == first as int + i
    ensures c in run <==> first as int <= c as int < first as int + |run|
  {
    if first as int <= c as int < first as int + |run| { assert run[c as int - first as int] == c; }
  }

  lemma TagExact(t: string)
    ensures ValidTag(t) <==> TagShape(t)
  {
    var first := TAG_FIRST;
    forall c ensures TagByte(c) <==> c in first { TagFirstExact(c); }
    TagOver(t, first);
  }

  lemma TagOver(t: string, first: string)
    requires forall c :: TagByte(c) <==> c in first
    ensures ValidTag(t) <==> 1 <= |t| <= 128 && t[0] in first && Over(t[1..], first + ".-")
  {
    forall c ensures c in first + ".-" <==> TagByte(c) || c == '.' || c == '-' {}
    if t != "" { assert forall i :: 1 <= i < |t| ==> t[i] == t[1..][i - 1]; }
  }

  lemma DigestExact(d: string)
    ensures ParseDigest(d) == if DigestShape(d) then Some(d) else None
  {
    var lower := LOWER_AND_DIGITS;
    forall c ensures Alnum(c) <==> c in lower { LowerExact(c); }
    if algorithm, encoded :| DigestOf(d, algorithm, encoded) {
      DigestOver(algorithm, encoded, lower);
      SplitOnceAt(algorithm, ':', encoded);
    }
    if SplitOnce(d, ':').Some? {
      var parts := SplitOnce(d, ':').value;
      DigestOver(parts.0, parts.1, lower);
      assert d == parts.0 + ":" + parts.1;
      if ParseDigest(d).Some? { assert DigestOf(d, parts.0, parts.1); }
    }
  }

  lemma DigestOver(algorithm: string, encoded: string, lower: string)
    requires forall c :: Alnum(c) <==> c in lower
    ensures Over(algorithm, lower + "+._-") <==> forall i :: 0 <= i < |algorithm| ==> AlgorithmByte(algorithm[i])
    ensures Over(encoded, lower + "=_-") <==> forall i :: 0 <= i < |encoded| ==> EncodedByte(encoded[i])
    ensures Over(algorithm, lower + "+._-") ==> ':' !in algorithm
  {
    forall c ensures c in lower + "+._-" <==> AlgorithmByte(c) {}
    forall c ensures c in lower + "=_-" <==> EncodedByte(c) {}
    if Over(algorithm, lower + "+._-") {
      forall i | 0 <= i < |algorithm| ensures algorithm[i] != ':' { assert AlgorithmByte(algorithm[i]); }
    }
  }

  /** A reference is the digest it spells if it has a colon, and else the tag. */
  lemma ReferenceExact(text: string, reference: Reference)
    ensures ParseReference(text) == Some(reference) <==> text == Spelled(reference) && ReferenceShape(reference)
  {
    TagExact(text);
    DigestExact(text);
    if ValidTag(text) { assert ':' !in text by { NoColon(text); } }
  }

  lemma NoColon(tag: string)
    requires ValidTag(tag)
    ensures ':' !in tag
  {
  }

  /** Which routes are well formed, spelled out: names, tags and digests have their shapes; a referrers digest and an upload
      session are any one segment. */
  lemma WellFormedExact(route: OciRoute)
    ensures WellFormed(Oci(), route) <==>
      match route
      case Catalog => true
      case Manifest(name, reference) => NameShape(name) && ReferenceShape(reference)
      case Blob(name, d) => NameShape(name) && DigestShape(d)
      case BlobContents(name, d) => NameShape(name) && DigestShape(d)
      case Referrers(name, tail) => NameShape(name) && tail != "" && '/' !in tail
      case UploadSession(name, session) => NameShape(name) && session != "" && '/' !in session
      case TagsList(name) => NameShape(name)
      case UploadStart(name) => NameShape(name)
  {
    if !route.Catalog? {
      NameExact(route.name);
      match route
      case Manifest(_, reference) => ReferenceExact(Spelled(reference), reference);
      case Blob(_, d) => DigestExact(d);
      case BlobContents(_, d) => DigestExact(d);
      case _ =>
    }
  }

  lemma NameExact(name: string)
    ensures ValidName(Oci(), name) <==> NameShape(name)
  {
    JoinOfSplit(name, '/');
    if components :| NameOf(name, components) {
      forall i | 0 <= i < |components| ensures '/' !in components[i] { ComponentIsSafe(components[i]); }
      SplitOfJoin(components, '/');
      assert forall i :: 0 <= i < |components| ==> Oci()(components[i]);
    }
    if ValidName(Oci(), name) {
      var components := Split(name, '/');
      forall i | 0 <= i < |components| ensures Component(components[i]) { assert Oci()(components[i]); }
      assert NameOf(name, components);
    }
  }

  /** The paths those routes print as. */
  lemma RenderSpells(route: OciRoute)
    ensures Render(route) ==
      match route
      case Catalog => "/v2/_catalog"
      case Manifest(name, Tag(t)) => "/v2/" + name + "/" + "manifests" + "/" + t
      case Manifest(name, DigestRef(d)) => "/v2/" + name + "/" + "manifests" + "/" + d
      case Blob(name, d) => "/v2/" + name + "/" + "blobs" + "/" + d
      case BlobContents(name, d) => "/v2/" + name + "/" + "blobs" + "/" + d + "/" + "contents"
      case TagsList(name) => "/v2/" + name + "/" + "tags" + "/" + "list"
      case Referrers(name, d) => "/v2/" + name + "/" + "referrers" + "/" + d
      case UploadStart(name) => "/v2/" + name + "/" + "blobs" + "/" + "uploads"
      case UploadSession(name, session) => "/v2/" + name + "/" + "blobs" + "/" + "uploads" + "/" + session
  {
    match route
    case Catalog =>
    case Manifest(name, reference) => PrintedTwo(name, "manifests", Spelled(reference));
    case Blob(name, d) => PrintedTwo(name, "blobs", d);
    case BlobContents(name, d) => PrintedThree(name, d, "contents");
    case TagsList(name) => PrintedTwo(name, "tags", "list");
    case Referrers(name, d) => PrintedTwo(name, "referrers", d);
    case UploadStart(name) => PrintedTwo(name, "blobs", "uploads");
    case UploadSession(name, session) => PrintedThree(name, "uploads", session);
  }

  lemma PrintedTwo(name: string, verb: string, tail: string)
    ensures "/v2/" + Printed(name, [verb, tail]) == "/v2/" + name + "/" + verb + "/" + tail
  {
    JoinTwo(verb, tail);
  }

  lemma JoinTwo(a: string, b: string)
    ensures Join([a, b], '/') == a + "/" + b
  {
    assert [a, b][1..] == [b];
  }

  lemma PrintedThree(name: string, middle: string, tail: string)
    ensures "/v2/" + Printed(name, ["blobs", middle, tail]) == "/v2/" + name + "/" + "blobs" + "/" + middle + "/" + tail
  {
    assert ["blobs", middle, tail][1..] == [middle, tail];
    JoinTwo(middle, tail);
    assert Join(["blobs", middle, tail], '/') == "blobs" + ['/'] + (middle + "/" + tail);
  }

  /** Parsing and printing are inverse: a path parses to a route exactly when the route is well formed, is not
      claimed by the layer browser, and the path is its print, up to one trailing slash. */
  lemma ClassifyExact(path: string, route: OciRoute)
    ensures Classify(Oci(), path) == Some(route) <==>
            WellFormed(Oci(), route) && !Claimed(route) && (path == Render(route) || path == Render(route) + "/")
  {
    var g := Oci();
    OciIsSafe();
    if Classify(g, path) == Some(route) {
      ClassifyIsPrint(g, path, route);
    }
    if WellFormed(g, route) && !Claimed(route) && (path == Render(route) || path == Render(route) + "/") {
      RenderParses(g, path, route);
    }
  }

  lemma ClassifyIsPrint(g: Grammar, path: string, route: OciRoute)
    requires Classify(g, path) == Some(route)
    ensures WellFormed(g, route) && !Claimed(route)
    ensures path == Render(route) || path == Render(route) + "/"
  {
    var rest := Trimmed(path[4..]);
    if route.Catalog? {
      assert rest == "_catalog" by {
        if rest != "_catalog" { RestIsPrint(g, rest, route); }
      }
    } else {
      RestIsPrint(g, rest, route);
    }
    PathOfRest(path, rest);
  }

  lemma PathOfRest(path: string, rest: string)
    requires "/v2/" <= path && rest == Trimmed(path[4..])
    ensures path == "/v2/" + rest || path == "/v2/" + rest + "/"
  {
    assert path == "/v2/" + path[4..];
    assert "/v2/" + (rest + "/") == "/v2/" + rest + "/";
  }

  lemma RestIsPrint(g: Grammar, rest: string, route: OciRoute)
    requires ClassifySegments(g, Split(rest, '/')) == Some(route)
    ensures !route.Catalog? && WellFormed(g, route) && !Claimed(route)
    ensures rest == Body(route)
  {
    var segments := Split(rest, '/');
    JoinOfSplit(rest, '/');
    var components := SegmentsArePrint(g, segments, route);
    SegmentsJoin(components, Suffix(route), route.name);
  }

  lemma SegmentsJoin(components: seq<string>, suffix: seq<string>, name: string)
    requires components != [] && suffix != [] && Join(components, '/') == name
    ensures Join(components + suffix, '/') == Printed(name, suffix)
  {
    JoinAppend(components, suffix, '/');
  }

  /** What a successful classification says about the segments: a valid name's components, then the route's suffix. */
  lemma SegmentsArePrint(g: Grammar, segments: seq<string>, route: OciRoute) returns (components: seq<string>)
    requires ClassifySegments(g, segments) == Some(route) && FreeOf(segments, '/')
    ensures !route.Catalog? && WellFormed(g, route) && !Claimed(route)
    ensures components != [] && segments == components + Suffix(route) && Join(components, '/') == route.name
  {
    var k := BranchOf(g, segments, route);
    components := segments[..k];
    SegmentsSplit(segments, k, JoinName(g, components), route);
    NamedSegments(g, components, route);
  }

  /** The two branches of the parser, each read back as a suffix. */
  lemma SegmentsSplit(segments: seq<string>, k: nat, name: Option<string>, route: OciRoute)
    requires |segments| >= 2 && FreeOf(segments, '/') && segments[|segments| - 1] != ""
    requires k == |segments| - if BlobShape(segments) then 3 else 2
    requires BlobShape(segments) ==> ClassifyBlobs(name, segments[|segments| - 2], segments[|segments| - 1]) == Some(route)
    requires !BlobShape(segments) ==> ClassifyVerb(name, segments[|segments| - 2], segments[|segments| - 1]) == Some(route)
    ensures !route.Catalog? && WellReferenced(route) && name == Some(route.name)
    ensures segments == segments[..k] + Suffix(route) && FreeOf(segments[..k], '/') && !ClaimedUnder(route, segments[..k])
  {
    if BlobShape(segments) {
      BlobSplit(segments, name, route);
    } else {
      VerbSplit(segments, name, route);
    }
    assert segments == segments[..k] + segments[k..];
  }

  ghost predicate BlobShape(segments: seq<string>) {
    && |segments| >= 3 && segments[|segments| - 3] == "blobs"
    && (segments[|segments| - 2] == "uploads" || segments[|segments| - 1] == "contents")
  }

  /** The branch the parser took, and where it ends the name. */
  lemma BranchOf(g: Grammar, segments: seq<string>, route: OciRoute) returns (k: nat)
    requires ClassifySegments(g, segments) == Some(route)
    ensures |segments| >= 2 && segments[|segments| - 1] != "" && k == |segments| - if BlobShape(segments) then 3 else 2
    ensures BlobShape(segments) ==> ClassifyBlobs(JoinName(g, segments[..k]), segments[|segments| - 2], segments[|segments| - 1]) == Some(route)
    ensures !BlobShape(segments) ==> ClassifyVerb(JoinName(g, segments[..k]), segments[|segments| - 2], segments[|segments| - 1]) == Some(route)
  {
    k := |segments| - if BlobShape(segments) then 3 else 2;
  }

  lemma BlobSplit(segments: seq<string>, name: Option<string>, route: OciRoute)
    requires BlobShape(segments) && FreeOf(segments, '/') && segments[|segments| - 1] != ""
    requires ClassifyBlobs(name, segments[|segments| - 2], segments[|segments| - 1]) == Some(route)
    ensures !route.Catalog? && Suffix(route) == segments[|segments| - 3..] && WellReferenced(route) && name == Some(route.name)
    ensures forall components :: !ClaimedUnder(route, components)
  {
    var len := |segments|;
    SegmentAt(segments, len - 1);
    BlobsArePrint(name, segments[len - 2], segments[len - 1], route);
    assert segments[len - 3..] == ["blobs", segments[len - 2], segments[len - 1]];
  }

  lemma VerbSplit(segments: seq<string>, name: Option<string>, route: OciRoute)
    requires |segments| >= 2 && !BlobShape(segments) && FreeOf(segments, '/') && segments[|segments| - 1] != ""
    requires ClassifyVerb(name, segments[|segments| - 2], segments[|segments| - 1]) == Some(route)
    ensures !route.Catalog? && Suffix(route) == segments[|segments| - 2..] && WellReferenced(route) && name == Some(route.name)
    ensures !ClaimedUnder(route, segments[..|segments| - 2])
  {
    var len := |segments|;
    SegmentAt(segments, len - 1);
    VerbIsPrint(name, segments[len - 2], segments[len - 1], route);
    assert segments[len - 2..] == [segments[len - 2], segments[len - 1]];
    NotClaimed(route, segments[..len - 2], segments[len - 2], segments[len - 1]);
  }

  lemma SegmentAt(segments: seq<string>, i: nat)
    requires i < |segments| && FreeOf(segments, '/') && segments[i] != ""
    ensures Segment(segments[i])
  {
  }

  lemma NotClaimed(route: OciRoute, components: seq<string>, verb: string, tail: string)
    requires !route.Catalog? && Suffix(route) == [verb, tail]
    requires components != [] && components[|components| - 1] == "blobs" ==> tail != "contents"
    ensures !ClaimedUnder(route, components)
  {
    assert Suffix(route)[1] == tail;
  }

  lemma NamedSegments(g: Grammar, components: seq<string>, route: OciRoute)
    requires !route.Catalog? && WellReferenced(route) && !ClaimedUnder(route, components)
    requires FreeOf(components, '/') && JoinName(g, components) == Some(route.name)
    ensures WellFormed(g, route) && !Claimed(route) && components != [] && Join(components, '/') == route.name
  {
    NameOfComponents(g, components);
  }

  lemma NameOfComponents(g: Grammar, components: seq<string>)
    requires JoinName(g, components).Some? && FreeOf(components, '/')
    ensures ValidName(g, JoinName(g, components).value) && Split(JoinName(g, components).value, '/') == components
  {
    SplitOfJoin(components, '/');
  }

  lemma BlobsArePrint(name: Option<string>, middle: string, tail: string, route: OciRoute)
    requires ClassifyBlobs(name, middle, tail) == Some(route) && (middle == "uploads" || tail == "contents") && Segment(tail)
    ensures !route.Catalog? && name == Some(route.name) && Suffix(route) == ["blobs", middle, tail]
    ensures WellReferenced(route) && !route.Manifest? && !route.Referrers?
  {
  }

  lemma VerbIsPrint(name: Option<string>, verb: string, tail: string, route: OciRoute)
    requires ClassifyVerb(name, verb, tail) == Some(route) && Segment(tail)
    ensures !route.Catalog? && name == Some(route.name) && Suffix(route) == [verb, tail] && WellReferenced(route)
  {
  }

  lemma RenderParses(g: Grammar, path: string, route: OciRoute)
    requires Safe(g) && WellFormed(g, route) && !Claimed(route) && (path == Render(route) || path == Render(route) + "/")
    ensures Classify(g, path) == Some(route)
  {
    if route.Catalog? {
      assert path[4..] == "_catalog" || path[4..] == "_catalog" + "/";
      assert Trimmed("_catalog" + "/") == "_catalog";
    } else {
      RenderSegments(g, path, route);
      PrintedSegments(g, Split(route.name, '/'), route);
    }
  }

  /** The segments the parser sees in a printed path. */
  lemma RenderSegments(g: Grammar, path: string, route: OciRoute)
    requires Safe(g) && !route.Catalog? && WellFormed(g, route) && (path == Render(route) || path == Render(route) + "/")
    ensures Classify(g, path) == ClassifySegments(g, Split(route.name, '/') + Suffix(route))
    ensures NoneEmpty(Split(route.name, '/') + Suffix(route))
  {
    SuffixSegments(route);
    NameSegments(g, route.name);
    PathSegments(g, path, Split(route.name, '/'), Suffix(route));
  }

  lemma NameSegments(g: Grammar, name: string)
    requires Safe(g) && ValidName(g, name)
    ensures Join(Split(name, '/'), '/') == name
    ensures forall i :: 0 <= i < |Split(name, '/')| ==> Segment(Split(name, '/')[i])
  {
    var components := Split(name, '/');
    forall i | 0 <= i < |components| ensures Segment(components[i]) { assert g(components[i]); }
  }

  lemma PathSegments(g: Grammar, path: string, components: seq<string>, suffix: seq<string>)
    requires |components| >= 1 && |suffix| >= 1
    requires forall i :: 0 <= i < |components| ==> Segment(components[i])
    requires forall i :: 0 <= i < |suffix| ==> Segment(suffix[i])
    requires var body := Printed(Join(components, '/'), suffix); path == "/v2/" + body || path == "/v2/" + body + "/"
    ensures Classify(g, path) == ClassifySegments(g, components + suffix)
    ensures NoneEmpty(components + suffix)
  {
    PrintedSplits(components, suffix);
    ClassifyBody(g, path, Printed(Join(components, '/'), suffix));
  }

  /** The printed segments are found again, and the print ends in none of the parser's special ways. */
  lemma PrintedSplits(components: seq<string>, suffix: seq<string>)
    requires |components| >= 1 && |suffix| >= 1
    requires forall i :: 0 <= i < |components| ==> Segment(components[i])
    requires forall i :: 0 <= i < |suffix| ==> Segment(suffix[i])
    ensures var body := Printed(Join(components, '/'), suffix);
      Split(body, '/') == components + suffix && body != "" && body[|body| - 1] != '/' && body != "_catalog"
  {
    var segments := components + suffix;
    JoinAppend(components, suffix, '/');
    assert FreeOf(segments, '/');
    SplitOfJoin(segments, '/');
    JoinEnds(segments);
    NotCatalog(Join(segments, '/'), segments);
  }

  /** A trailing slash does not change what a path means. */
  lemma ClassifyBody(g: Grammar, path: string, body: string)
    requires path == "/v2/" + body || path == "/v2/" + body + "/"
    requires body != "" && body[|body| - 1] != '/' && body != "_catalog"
    ensures Classify(g, path) == ClassifySegments(g, Split(body, '/'))
  {
    RestOf(path, body);
  }

  lemma RestOf(path: string, body: string)
    requires path == "/v2/" + body || path == "/v2/" + body + "/"
    requires body != "" && body[|body| - 1] != '/'
    ensures "/v2/" <= path && Trimmed(path[4..]) == body
  {
    assert path[4..] == body || path[4..] == body + "/";
    assert Trimmed(body + "/") == body && Trimmed(body) == body;
  }

  lemma NotCatalog(body: string, segments: seq<string>)
    requires Split(body, '/') == segments && |segments| >= 2
    ensures body != "_catalog"
  {
    if body == "_catalog" {
      SplitOfJoin(["_catalog"], '/');
    }
  }

  lemma SuffixSegments(route: OciRoute)
    requires !route.Catalog? && WellReferenced(route)
    ensures forall i :: 0 <= i < |Suffix(route)| ==> Segment(Suffix(route)[i])
  {
  }

  /** Joined segments do not end in a slash. */
  lemma {:induction false} JoinEnds(segments: seq<string>)
    requires |segments| >= 1 && forall i :: 0 <= i < |segments| ==> Segment(segments[i])
    ensures var body := Join(segments, '/'); body != "" && body[|body| - 1] != '/'
    decreases |segments|
  {
    if |segments| > 1 { JoinEnds(segments[1..]); }
  }

  /** The last segments of a printed path select the parser's branch. */
  lemma SegmentsEnd(components: seq<string>, suffix: seq<string>)
    requires |components| >= 1 && 2 <= |suffix| <= 3
    ensures var segments := components + suffix; var len := |segments|;
      && len >= 3
      && segments[len - 1] == suffix[|suffix| - 1] && segments[len - 2] == suffix[|suffix| - 2]
      && segments[len - 3] == (if |suffix| == 3 then suffix[0] else components[|components| - 1])
      && segments[..len - |suffix|] == components
  {
  }

  /** The printed suffix, given the name, classifies back to the route. */
  lemma SuffixParses(route: OciRoute)
    requires !route.Catalog? && WellReferenced(route)
    ensures var suffix := Suffix(route);
      if |suffix| == 3
      then suffix[0] == "blobs" && (suffix[1] == "uploads" || suffix[2] == "contents") &&
           ClassifyBlobs(Some(route.name), suffix[1], suffix[2]) == Some(route)
      else suffix[0] != "uploads" && ClassifyVerb(Some(route.name), suffix[0], suffix[1]) == Some(route)
  {
    match route
    case Manifest(name, reference) => VerbParses(name, "manifests", Spelled(reference), route);
    case Blob(name, digest) =>
      assert digest != "uploads" by { assert ':' !in "uploads"; }
      VerbParses(name, "blobs", digest, route);
    case BlobContents(name, digest) =>
      assert digest != "uploads" by { assert ':' !in "uploads"; }
    case TagsList(name) => VerbParses(name, "tags", "list", route);
    case Referrers(name, digest) => VerbParses(name, "referrers", digest, route);
    case UploadStart(name) => VerbParses(name, "blobs", "uploads", route);
    case UploadSession(name, session) =>
  }

  lemma VerbParses(name: string, verb: string, tail: string, route: OciRoute)
    requires WellReferenced(route) && !route.Catalog? && route.name == name && Suffix(route) == [verb, tail]
    requires verb == "blobs" && !route.UploadStart? ==> tail != "uploads"
    ensures verb != "uploads" && ClassifyVerb(Some(name), verb, tail) == Some(route)
  {
    var suffix := Suffix(route);
    assert suffix[0] == verb && suffix[1] == tail;
  }

  ghost predicate NoneEmpty(segments: seq<string>) {
    forall i :: 0 <= i < |segments| ==> segments[i] != ""
  }

  lemma BranchBlobs(g: Grammar, components: seq<string>, suffix: seq<string>)
    requires |components| >= 1 && |suffix| == 3 && NoneEmpty(components + suffix)
    requires suffix[0] == "blobs" && (suffix[1] == "uploads" || suffix[2] == "contents")
    ensures ClassifySegments(g, components + suffix) == ClassifyBlobs(JoinName(g, components), suffix[1], suffix[2])
  {
    SegmentsEnd(components, suffix);
  }

  lemma BranchVerb(g: Grammar, components: seq<string>, suffix: seq<string>)
    requires |components| >= 1 && |suffix| == 2 && NoneEmpty(components + suffix)
    requires suffix[0] != "uploads" && !(components[|components| - 1] == "blobs" && suffix[1] == "contents")
    ensures ClassifySegments(g, components + suffix) == ClassifyVerb(JoinName(g, components), suffix[0], suffix[1])
  {
    SegmentsEnd(components, suffix);
  }

  lemma PrintedSegments(g: Grammar, components: seq<string>, route: OciRoute)
    requires !route.Catalog? && WellFormed(g, route) && !Claimed(route) && components == Split(route.name, '/')
    requires NoneEmpty(components + Suffix(route))
    ensures ClassifySegments(g, components + Suffix(route)) == Some(route)
  {
    SuffixParses(route);
    if |Suffix(route)| == 3 {
      BranchBlobs(g, components, Suffix(route));
    } else {
      assert Suffix(route)[1] == "contents" ==> route.Manifest? || route.Referrers? by { assert ':' !in "contents"; }
      BranchVerb(g, components, Suffix(route));
    }
  }

  /** A claimed route is the whole family that fails: its own print parses to nothing. */
  lemma ClaimedRoutesDoNotParse(g: Grammar, route: OciRoute)
    requires Safe(g) && WellFormed(g, route) && Claimed(route)
    ensures Classify(g, Render(route)).None?
  {
    var components, suffix := Split(route.name, '/'), Suffix(route);
    assert components[|components| - 1] == "blobs";
    assert Classify(g, Render(route)) == ClassifySegments(g, components + suffix) && NoneEmpty(components + suffix) by {
      RenderSegments(g, Render(route), route);
    }
    assert ClassifySegments(g, components + suffix).None? by {
      ClaimedSuffix(route);
      ClaimedSegments(g, components, suffix);
    }
  }

  lemma ClaimedSuffix(route: OciRoute)
    requires Claimed(route)
    ensures |Suffix(route)| == 2 && ':' !in Suffix(route)[0] && Suffix(route)[0] != "uploads" && Suffix(route)[1] == "contents"
  {
  }

  lemma ClaimedSegments(g: Grammar, components: seq<string>, suffix: seq<string>)
    requires |components| >= 1 && |suffix| == 2 && NoneEmpty(components + suffix)
    requires components[|components| - 1] == "blobs" && suffix[1] == "contents"
    requires ':' !in suffix[0] && suffix[0] != "uploads"
    ensures ClassifySegments(g, components + suffix).None?
  {
    SegmentsEnd(components, suffix);
  }

  /** The family is inhabited: the tag `contents` in a repository named `blobs`. */
  lemma ClaimedExample()
    ensures WellFormed(Oci(), Manifest("blobs", Tag("contents"))) && Claimed(Manifest("blobs", Tag("contents")))
  {
    BlobsIsAName();
    ContentsIsATag();
  }

  lemma BlobsIsAName()
    ensures ValidName(Oci(), "blobs") && Split("blobs", '/') == ["blobs"]
  {
    assert Component("blobs") by { assert AlnumBetween("blobs", 0, 5); }
    OneComponentName(Oci(), "blobs");
  }

  lemma OneComponentName(g: Grammar, s: string)
    requires g(s) && '/' !in s && |s| <= 255
    ensures ValidName(g, s) && Split(s, '/') == [s]
  {
    SplitOfJoin([s], '/');
  }

  lemma ContentsIsATag()
    ensures ParseReference("contents") == Some(Tag("contents"))
  {
    assert ':' !in "contents";
  }
}
