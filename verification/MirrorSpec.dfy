/** Mirroring OCI images: the walk over a content-addressed manifest graph, in Sync or Verify mode, as a function of
    the stores and of whatever the network answers (crates/peryx-ecosystem-oci/src/mirror.rs). */
module MirrorSpec {
  import opened Common
  import opened OciKeys
  import opened OciModel
  import opened WorkStack

  datatype Mode = Sync | Verify
  datatype Kind = ManifestRow | BlobRow | SummaryRow
  datatype Status = Synced | Cached | Error
  datatype Row = Row(kind: Kind, repo: string, reference: string, digest: string, status: Status, bytes: nat)

  /** Content addressing. `content` is the one text a digest can stand for, `storage` maps a digest onto the blob
      store when its algorithm is supported, and `rank` witnesses that no manifest reaches itself. */
  datatype World = World(
    describe: Describe,
    digestOf: string -> string,
    content: string -> Option<string>,
    storage: string -> Option<string>,
    rank: string -> nat)

  /** Digests determine bytes, are text, and a manifest ranks above every manifest it names. */
  ghost predicate Sound(w: World) {
    && (forall b :: w.content(w.digestOf(b)) == Some(b) && ValidUtf8(w.digestOf(b)))
    && (forall b, c :: w.digestOf(c) in w.describe(b).0 ==> w.rank(c) < w.rank(b))
  }

  /** What a manifest request yields. A media type comes out of an HTTP header: text of any length, or absent. */
  datatype Fetch = Unreachable | Oversized | Body(mediaType: Option<Text>, bytes: string)

  /** What the network answers to each manifest request, and what the disk and the network answer to each blob lookup (a
      blob that arrives has a size); nothing relates one answer to another. */
  datatype Outside = Outside(manifest: nat -> Fetch, now: nat -> i64, headFails: nat -> bool, blobArrives: nat -> Option<nat>)

  const DEFAULT_MANIFEST_TYPE := "application/vnd.oci.image.manifest.v1+json"

  function MediaType(f: Fetch): Text
    requires f.Body?
  {
    if f.mediaType.Some? then f.mediaType.value else DefaultType()
  }

  function DefaultType(): Text {
    assert forall i :: 0 <= i < |DEFAULT_MANIFEST_TYPE| ==> DEFAULT_MANIFEST_TYPE[i] < '~';
    AsciiIsText(DEFAULT_MANIFEST_TYPE);
    DEFAULT_MANIFEST_TYPE
  }

  datatype Context = Context(world: World, outside: Outside, index: string, mode: Mode)

  /** A run: the metadata records, the stored blobs, the report so far, the number of manifest requests and of blob
      lookups made, and whether a fault ended the run early. */
  datatype State = State(model: Model, blobs: set<string>, rows: seq<Row>, fetches: nat, lookups: nat, aborted: bool)

  function Report(s: State, row: Row): State { s.(rows := s.rows + [row]) }
  function Fetched(s: State): State { s.(fetches := s.fetches + 1) }
  function LookedUp(s: State): State { s.(lookups := s.lookups + 1) }

  // ----- manifest_of, verify_manifest, blob -----

  function VerifyManifest(c: Context, s: State, repo: string, reference: string, tag: Option<string>): (State, Option<Manifest>) {
    var digest := if tag.Some? then Target(s.model, c.index, repo, tag.value) else Some(reference);
    if digest.None? then (Report(s, Row(ManifestRow, repo, reference, "", Error, 0)), None)
    else
      match Stored(s.model, digest.value)
      case None => (Report(s, Row(ManifestRow, repo, reference, digest.value, Error, 0)), None)
      case Some(m) => (Report(s, Row(ManifestRow, repo, reference, digest.value, Cached, 0)), Some(m))
  }

  /** The store after a fetched manifest is recorded, with its tag when it was asked for by tag. */
  function Admitted(c: Context, s: State, repo: string, tag: Option<string>, m: Manifest): Model {
    var digest := c.world.digestOf(m.bytes);
    var recorded := Recorded(s.model, c.world.describe, c.index, repo, digest, m);
    if tag.None? then recorded
    else recorded[TagKey(c.index, repo, tag.value) := digest]
                 [FreshKey(c.index, repo, tag.value) := EncodeFresh(c.outside.now(s.fetches), digest)]
  }

  function ManifestOf(c: Context, s: State, repo: string, reference: string, tag: Option<string>): (State, Option<Manifest>) {
    if c.mode == Verify then VerifyManifest(c, s, repo, reference, tag)
    else
      var answer := c.outside.manifest(s.fetches);
      match answer
      case Unreachable => (Report(Fetched(s), Row(ManifestRow, repo, reference, "", Error, 0)), None)
      case Oversized => (Fetched(s).(aborted := true), None)
      case Body(_, bytes) =>
        var digest := c.world.digestOf(bytes);
        if tag.None? && reference != digest then (Report(Fetched(s), Row(ManifestRow, repo, reference, "", Error, 0)), None)
        else
          var m := Manifest(MediaType(answer), bytes);
          (Report(Fetched(s).(model := Admitted(c, s, repo, tag, m)), Row(ManifestRow, repo, reference, digest, Synced, |bytes|)), Some(m))
  }

  function Blob(c: Context, s: State, repo: string, digest: string): State {
    var at := c.world.storage(digest);
    if at.None? then Report(s, Row(BlobRow, repo, digest, digest, Error, 0))
    else if c.outside.headFails(s.lookups) then Report(LookedUp(s), Row(BlobRow, repo, digest, digest, Error, 0))
    else if at.value in s.blobs then Report(LookedUp(s), Row(BlobRow, repo, digest, digest, Cached, 0))
    else if c.mode == Verify || c.outside.blobArrives(s.lookups).None? then Report(LookedUp(s), Row(BlobRow, repo, digest, digest, Error, 0))
    else Report(LookedUp(s).(blobs := s.blobs + {at.value}), Row(BlobRow, repo, digest, digest, Synced, c.outside.blobArrives(s.lookups).value))
  }

  function Blobs(c: Context, s: State, repo: string, digests: seq<string>): State
    decreases |digests|
  {
    if digests == [] then s else Blobs(c, Blob(c, s, repo, digests[0]), repo, digests[1..])
  }

  /** Ask for each child by digest; the ones that arrive are pushed. A fault stops the loop. */
  function Children(c: Context, s: State, repo: string, digests: seq<string>): (State, seq<string>)
    decreases |digests|
  {
    if digests == [] || s.aborted then (s, [])
    else
      var (s1, m) := ManifestOf(c, s, repo, digests[0], None);
      var (s2, pushed) := Children(c, s1, repo, digests[1..]);
      (s2, (if m.Some? then [m.value.bytes] else []) + pushed)
  }

  /** One turn of the work stack: pop the last entry, request its children, then its blobs. */
  function Turn(c: Context, s: State, repo: string, b: string): (State, seq<string>) {
    var (children, blobs) := c.world.describe(b);
    var (s1, pushed) := Children(c, s, repo, children);
    (if s1.aborted then s1 else Blobs(c, s1, repo, blobs), pushed)
  }

  lemma {:induction false} BlobsKeepModel(c: Context, s: State, repo: string, digests: seq<string>)
    ensures var s' := Blobs(c, s, repo, digests); s'.model == s.model && s'.aborted == s.aborted && s'.fetches == s.fetches
    decreases |digests|
  {
    if digests != [] { BlobsKeepModel(c, Blob(c, s, repo, digests[0]), repo, digests[1..]); }
  }

  // ----- Why a Sync walk ends: the graph of content -----

  /** The bytes a child digest stands for. */
  ghost predicate IsContent(w: World, digest: string, b: string) {
    w.content(digest) == Some(b) && w.digestOf(b) == digest
  }

  /** The pops a manifest can cost: one, and those of every child, counted as often as it is named. */
  ghost function Cost(w: World, b: string): nat
    requires Sound(w)
    decreases w.rank(b), 1, 0
  {
    1 + CostAll(w, b, w.describe(b).0)
  }

  ghost function CostAll(w: World, b: string, digests: seq<string>): nat
    requires Sound(w) && forall d :: d in digests ==> d in w.describe(b).0
    decreases w.rank(b), 0, |digests|
  {
    if digests == [] then 0
    else
      var own := w.content(digests[0]);
      (if own.Some? && w.digestOf(own.value) == digests[0] then
         assert w.rank(own.value) < w.rank(b) by { assert w.digestOf(own.value) in w.describe(b).0; }
         Cost(w, own.value)
       else 0) + CostAll(w, b, digests[1..])
  }

  ghost function PendingCost(w: World, pending: seq<string>): nat
    requires Sound(w)
  {
    if pending == [] then 0 else Cost(w, pending[0]) + PendingCost(w, pending[1..])
  }

  lemma {:induction false} PendingCostAppend(w: World, a: seq<string>, b: seq<string>)
    requires Sound(w)
    ensures PendingCost(w, a + b) == PendingCost(w, a) + PendingCost(w, b)
    decreases |a|
  {
    if a == [] {
      assert a + b == b;
    } else {
      PendingCostAppend(w, a[1..], b);
      assert (a + b)[1..] == a[1..] + b;
    }
  }

  /** What a Sync hands back for a digest is that digest's content, whatever the store holds. */
  lemma FetchedIsContent(c: Context, s: State, repo: string, reference: string)
    requires Sound(c.world) && c.mode == Sync
    ensures var m := ManifestOf(c, s, repo, reference, None).1; m.Some? ==> IsContent(c.world, reference, m.value.bytes)
  {
  }

  /** The children loop of a Sync pushes no more than the graph allows for. */
  lemma {:induction false} ChildrenCost(c: Context, s: State, repo: string, b: string, digests: seq<string>)
    requires Sound(c.world) && c.mode == Sync && forall d :: d in digests ==> d in c.world.describe(b).0
    ensures PendingCost(c.world, Children(c, s, repo, digests).1) <= CostAll(c.world, b, digests)
    decreases |digests|
  {
    if digests != [] && !s.aborted {
      var (s1, m) := ManifestOf(c, s, repo, digests[0], None);
      FetchedIsContent(c, s, repo, digests[0]);
      ChildrenCost(c, s1, repo, b, digests[1..]);
      var (_, pushed) := Children(c, s1, repo, digests[1..]);
      if m.Some? {
        assert ([m.value.bytes] + pushed)[1..] == pushed;
      } else {
        assert [] + pushed == pushed;
      }
    }
  }

  lemma SyncTurnShrinks(w: World, front: seq<string>, b: string, pushed: seq<string>)
    requires Sound(w) && PendingCost(w, pushed) < Cost(w, b)
    ensures PendingCost(w, front + pushed) < PendingCost(w, front + [b])
  {
    PendingCostAppend(w, front, pushed);
    PendingCostAppend(w, front, [b]);
    assert [b][1..] == [];
  }

  // ----- Why a Verify walk ends: the graph the store reads back as -----

  /** The bytes the store reads back for these digests. */
  function StoredBytes(model: Model, digests: seq<string>): seq<string> {
    if digests == [] then []
    else (if Stored(model, digests[0]).Some? then [Stored(model, digests[0]).value.bytes] else []) + StoredBytes(model, digests[1..])
  }

  /** What popping a manifest pushes in Verify. */
  function Below(describe: Describe, model: Model): Graph { b => StoredBytes(model, describe(b).0) }

  /** Verify pushes what the store reads back and writes nothing but rows. */
  lemma {:induction false} ChildrenRead(c: Context, s: State, repo: string, digests: seq<string>)
    requires c.mode == Verify && !s.aborted
    ensures var (s', pushed) := Children(c, s, repo, digests);
      && pushed == StoredBytes(s.model, digests)
      && s'.model == s.model && s'.blobs == s.blobs && s'.lookups == s.lookups && !s'.aborted
    decreases |digests|
  {
    if digests != [] { ChildrenRead(c, ManifestOf(c, s, repo, digests[0], None).0, repo, digests[1..]); }
  }

  lemma {:induction false} BlobsRead(c: Context, s: State, repo: string, digests: seq<string>)
    requires c.mode == Verify
    ensures Blobs(c, s, repo, digests).blobs == s.blobs
    decreases |digests|
  {
    if digests != [] { BlobsRead(c, Blob(c, s, repo, digests[0]), repo, digests[1..]); }
  }

  ghost predicate SameStores(s: State, s': State) { s'.model == s.model && s'.blobs == s.blobs && s'.aborted == s.aborted }

  lemma TurnReads(c: Context, s: State, repo: string, b: string)
    requires c.mode == Verify && !s.aborted
    ensures var (s', pushed) := Turn(c, s, repo, b); SameStores(s, s') && pushed == Below(c.world.describe, s.model)(b)
  {
    var (children, blobs) := c.world.describe(b);
    ChildrenRead(c, s, repo, children);
    BlobsKeepModel(c, Children(c, s, repo, children).0, repo, blobs);
    BlobsRead(c, Children(c, s, repo, children).0, repo, blobs);
  }

  // ----- The walk -----

  /** The walk ends: always in Sync, where no content reaches itself; in Verify exactly when the stack runs empty over
      the graph the store reads back as. */
  ghost predicate WalkEnds(c: Context, s: State, pending: seq<string>) {
    if c.mode == Sync then Sound(c.world) else Ends(Below(c.world.describe, s.model), pending)
  }

  ghost function Remaining(c: Context, s: State, pending: seq<string>): nat
    requires WalkEnds(c, s, pending)
  {
    if c.mode == Sync then PendingCost(c.world, pending) else Turns(Below(c.world.describe, s.model), pending)
  }

  /** The walk keeps no visited set; it ends because every turn takes more off the stack than it can push. */
  ghost function Walk(c: Context, s: State, repo: string, pending: seq<string>): State
    requires WalkEnds(c, s, pending)
    decreases Remaining(c, s, pending)
  {
    if pending == [] || s.aborted then s
    else
      var last := |pending| - 1;
      var (s', pushed) := Turn(c, s, repo, pending[last]);
      PendingShrinks(c, s, repo, pending);
      Walk(c, s', repo, pending[..last] + pushed)
  }

  lemma PendingShrinks(c: Context, s: State, repo: string, pending: seq<string>)
    requires WalkEnds(c, s, pending) && pending != [] && !s.aborted
    ensures var last := |pending| - 1; var (s', pushed) := Turn(c, s, repo, pending[last]);
      WalkEnds(c, s', pending[..last] + pushed) && Remaining(c, s', pending[..last] + pushed) < Remaining(c, s, pending)
  {
    var last := |pending| - 1;
    var front, b := pending[..last], pending[last];
    if c.mode == Sync {
      ChildrenCost(c, s, repo, b, c.world.describe(b).0);
      SyncTurnShrinks(c.world, front, b, Turn(c, s, repo, b).1);
      assert pending == front + [b];
    } else {
      TurnReads(c, s, repo, b);
      TurnsShrink(Below(c.world.describe, s.model), pending);
    }
  }

  // ----- References -----

  datatype ImageRef = ImageRef(repo: string, reference: string, byDigest: bool)

  /** `repo@digest`, else `repo:tag` split at the last colon after the last slash, else `repo` with the tag `latest`. */
  function ParseRef(raw: string): Option<ImageRef> {
    match SplitOnce(raw, '@')
    case Some(parts) => if parts.0 != "" && parts.1 != "" then Some(ImageRef(parts.0, parts.1, true)) else None
    case None => Some(ParseTag(raw[..BaseStart(raw)], raw[BaseStart(raw)..]))
  }

  /** Where the last path component starts. */
  function BaseStart(raw: string): (start: nat)
    ensures start <= |raw| && '/' !in raw[start..] && (start > 0 ==> raw[start - 1] == '/')
  {
    match RSplitOnce(raw, '/')
    case None => 0
    case Some(parts) =>
      assert raw[|parts.0| + 1..] == parts.1;
      |parts.0| + 1
  }

  /** The last component's tag read off. */
  function ParseTag(dir: string, base: string): ImageRef {
    match RSplitOnce(base, ':')
    case None => ImageRef(dir + base, "latest", false)
    case Some(parts) => ImageRef(dir + parts.0, parts.1, false)
  }

  /** No colon after the last slash. */
  ghost predicate Untagged(raw: string) {
    forall i :: 0 <= i < |raw| && raw[i] == ':' ==> exists j :: i < j < |raw| && raw[j] == '/'
  }

  /** The three ways to write a reference: pinned to a digest, with a tag, or bare. */
  ghost predicate Writes(raw: string, image: ImageRef) {
    if image.byDigest then raw == image.repo + "@" + image.reference && '@' !in image.repo && image.repo != "" && image.reference != ""
    else
      '@' !in raw &&
      ((raw == image.repo + ":" + image.reference && ':' !in image.reference && '/' !in image.reference) ||
       (raw == image.repo && image.reference == "latest" && Untagged(raw)))
  }

  /** Parsing reads back what was written, and nothing else: a text parses to an image exactly when it is one of the ways to
      write it. */
  lemma ParseRefExact(raw: string, image: ImageRef)
    ensures ParseRef(raw) == Some(image) <==> Writes(raw, image)
  {
    if '@' in raw {
      var parts := SplitOnce(raw, '@').value;
      assert raw == parts.0 + "@" + parts.1;
      if Writes(raw, image) { SplitOnceAt(image.repo, '@', image.reference); }
    } else {
      var dir, base := raw[..BaseStart(raw)], raw[BaseStart(raw)..];
      assert raw == dir + base;
      ParseTagExact(dir, base, image);
    }
  }

  lemma ParseTagExact(dir: string, base: string, image: ImageRef)
    requires '@' !in dir + base && '/' !in base && (dir != "" ==> dir[|dir| - 1] == '/')
    ensures ParseTag(dir, base) == image <==> Writes(dir + base, image)
  {
    var raw := dir + base;
    match RSplitOnce(base, ':')
    case Some(parts) =>
      TagWritten(raw, dir, parts.0, parts.1);
      if Writes(raw, image) { OneWriting(raw, dir + parts.0, parts.1, image); }
    case None =>
      BaseUntagged(dir, base);
      if Writes(raw, image) { UntaggedIsBare(raw, image); }
  }

  /** A colon after the last slash parts repository and tag. */
  lemma TagWritten(raw: string, dir: string, front: string, tag: string)
    requires raw == dir + (front + [':'] + tag) && '/' !in front + [':'] + tag && ':' !in tag
    ensures raw == (dir + front) + ":" + tag && '/' !in tag && !Untagged(raw)
  {
    var base := front + [':'] + tag;
    assert raw == (dir + front) + ":" + tag;
    forall j | 0 <= j < |tag| ensures tag[j] != '/' { assert tag[j] == base[|front| + 1 + j]; }
    TagIsTagged(dir + front, tag);
  }

  /** There is one way to read a tag off... */
  lemma OneWriting(raw: string, repo: string, tag: string, image: ImageRef)
    requires '@' !in raw && raw == repo + ":" + tag && ':' !in tag && !Untagged(raw) && Writes(raw, image)
    ensures image == ImageRef(repo, tag, false)
  {
    RSplitOnceAt(repo, ':', tag);
    RSplitOnceAt(image.repo, ':', image.reference);
  }

  /** ... and none where the last component has no colon. */
  lemma UntaggedIsBare(raw: string, image: ImageRef)
    requires '@' !in raw && Untagged(raw) && Writes(raw, image)
    ensures image == ImageRef(raw, "latest", false)
  {
    if ':' !in image.reference && '/' !in image.reference { TagIsTagged(image.repo, image.reference); }
  }

  lemma TagIsTagged(repo: string, tag: string)
    requires ':' !in tag && '/' !in tag
    ensures !Untagged(repo + ":" + tag)
  {
    var raw := repo + ":" + tag;
    assert raw[|repo|] == ':';
    forall j | |repo| < j < |raw| ensures raw[j] != '/' { assert raw[j] == tag[j - |repo| - 1]; }
  }

  lemma BaseUntagged(dir: string, base: string)
    requires ':' !in base && (dir != "" ==> dir[|dir| - 1] == '/')
    ensures Untagged(dir + base)
  {
    var raw := dir + base;
    forall i | |dir| <= i < |raw| ensures raw[i] != ':' { assert raw[i] == base[i - |dir|]; }
    assert dir != "" ==> raw[|dir| - 1] == '/';
  }

  /** A text is no reference exactly when it has an `@` with nothing before the first or nothing after it. */
  lemma ParseRefFails(raw: string)
    ensures ParseRef(raw).None? <==> exists repo, digest :: raw == repo + "@" + digest && '@' !in repo && (repo == "" || digest == "")
  {
    if repo, digest :| raw == repo + "@" + digest && '@' !in repo && (repo == "" || digest == "") {
      SplitOnceAt(repo, '@', digest);
    }
    if ParseRef(raw).None? {
      var parts := SplitOnce(raw, '@').value;
      assert raw == parts.0 + "@" + parts.1;
    }
  }

  function TagOf(image: ImageRef): Option<string> { if image.byDigest then None else Some(image.reference) }

  /** The bytes the store reads back for a reference. */
  function Root(index: string, model: Model, image: ImageRef): Option<string> {
    var digest := if image.byDigest then Some(image.reference) else Target(model, index, image.repo, image.reference);
    if digest.Some? && Stored(model, digest.value).Some? then Some(Stored(model, digest.value).value.bytes) else None
  }

  /** The run ends at this reference: always in Sync; in Verify exactly when the walk from what it resolves to does. */
  ghost predicate ImageEnds(c: Context, model: Model, image: ImageRef) {
    if c.mode == Sync then Sound(c.world)
    else Root(c.index, model, image).Some? ==> Ends(Below(c.world.describe, model), [Root(c.index, model, image).value])
  }

  ghost predicate RefEnds(c: Context, model: Model, raw: string) {
    ParseRef(raw).Some? ==> ImageEnds(c, model, ParseRef(raw).value)
  }

  ghost predicate RefsEnd(c: Context, model: Model, refs: seq<string>) {
    forall i :: 0 <= i < |refs| ==> RefEnds(c, model, refs[i])
  }

  ghost function OneRef(c: Context, s: State, image: ImageRef): State
    requires ImageEnds(c, s.model, image)
  {
    var (s', m) := ManifestOf(c, s, image.repo, image.reference, TagOf(image));
    if s'.aborted || m.None? then s' else Walk(c, s', image.repo, [m.value.bytes])
  }

  ghost function RefStep(c: Context, s: State, raw: string): State
    requires RefEnds(c, s.model, raw)
  {
    match ParseRef(raw)
    case None => Report(s, Row(ManifestRow, raw, "", "", Error, 0))
    case Some(image) => OneRef(c, s, image)
  }

  /** The references one after the other; a fault ends the run. */
  ghost function Refs(c: Context, s: State, refs: seq<string>): State
    requires RefsEnd(c, s.model, refs)
    decreases |refs|
  {
    if refs == [] || s.aborted then s
    else
      RefStepEnds(c, s, refs);
      Refs(c, RefStep(c, s, refs[0]), refs[1..])
  }

  lemma {:induction false} WalkReads(c: Context, s: State, repo: string, pending: seq<string>)
    requires c.mode == Verify && !s.aborted && WalkEnds(c, s, pending)
    ensures SameStores(s, Walk(c, s, repo, pending))
    decreases Remaining(c, s, pending)
  {
    if pending != [] {
      var last := |pending| - 1;
      PendingShrinks(c, s, repo, pending);
      TurnReads(c, s, repo, pending[last]);
      var (s', pushed) := Turn(c, s, repo, pending[last]);
      WalkReads(c, s', repo, pending[..last] + pushed);
    }
  }

  lemma RefStepReads(c: Context, s: State, raw: string)
    requires c.mode == Verify && !s.aborted && RefEnds(c, s.model, raw)
    ensures SameStores(s, RefStep(c, s, raw))
  {
    if ParseRef(raw).Some? {
      var image := ParseRef(raw).value;
      var (s', m) := ManifestOf(c, s, image.repo, image.reference, TagOf(image));
      if m.Some? { WalkReads(c, s', image.repo, [m.value.bytes]); }
    }
  }

  /** One reference leaves the others able to end. */
  lemma RefStepEnds(c: Context, s: State, refs: seq<string>)
    requires refs != [] && !s.aborted && RefsEnd(c, s.model, refs)
    ensures RefEnds(c, s.model, refs[0]) && RefsEnd(c, RefStep(c, s, refs[0]).model, refs[1..])
  {
    if c.mode == Verify { RefStepReads(c, s, refs[0]); }
    var model := RefStep(c, s, refs[0]).model;
    forall i | 0 <= i < |refs[1..]| ensures RefEnds(c, model, refs[1..][i]) { assert RefEnds(c, s.model, refs[i + 1]); }
  }

  ghost predicate NoErrors(rows: seq<Row>) {
    forall i :: 0 <= i < |rows| ==> rows[i].status != Error
  }

  function CountStatus(rows: seq<Row>, status: Status): nat {
    if rows == [] then 0 else CountStatus(rows[..|rows| - 1], status) + if rows[|rows| - 1].status == status then 1 else 0
  }

  function Summary(index: string, rows: seq<Row>): Row {
    Row(SummaryRow, index, "", "", if CountStatus(rows, Error) == 0 then Synced else Error, CountStatus(rows, Synced))
  }

  /** The closing row is an error exactly when some row was. */
  lemma {:induction false} SummaryTells(index: string, rows: seq<Row>)
    ensures Summary(index, rows).status == Synced <==> NoErrors(rows)
    decreases |rows|
  {
    if rows != [] {
      var n := |rows| - 1;
      SummaryTells(index, rows[..n]);
      assert rows == rows[..n] + [rows[n]];
    }
  }
}
