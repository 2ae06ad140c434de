/** What an error-free Sync guarantees: everything below the requested references was fetched, recorded and filled with
    its blobs, and which of it the store then reads back (crates/peryx-ecosystem-oci/src/mirror.rs). */
module MirrorSync {
  import opened Common
  import opened OciKeys
  import opened OciModel
  import opened MirrorSpec

  // ----- The answers of a run, and the records they leave -----

  /** Manifest request `n` was answered with these bytes. */
  ghost predicate Answered(c: Context, n: nat, b: string) {
    c.outside.manifest(n).Body? && c.outside.manifest(n).bytes == b
  }

  /** Some request of the run, which made its first as number `from`, was answered with these bytes. */
  ghost predicate Got(c: Context, from: nat, s: State, b: string) {
    exists n :: from <= n < s.fetches && Answered(c, n, b)
  }

  function AnswerTo(c: Context, n: nat): Option<Manifest> {
    var answer := c.outside.manifest(n);
    if answer.Body? then Some(Manifest(MediaType(answer), answer.bytes)) else None
  }

  predicate AnswersFor(c: Context, n: nat, digest: string) {
    AnswerTo(c, n).Some? && c.world.digestOf(AnswerTo(c, n).value.bytes) == digest
  }

  /** The record of a digest after requests `from` .. `until`, had each answer been recorded. */
  ghost function LastRecord(c: Context, start: Model, from: nat, until: nat, digest: string): Option<string>
    decreases until
  {
    if until <= from then Lookup(start, ManifestKey(digest))
    else if AnswersFor(c, until - 1, digest) then Some(EncodeManifest(AnswerTo(c, until - 1).value))
    else LastRecord(c, start, from, until - 1, digest)
  }

  ghost predicate Logged(c: Context, from: nat, start: Model, s: State) {
    from <= s.fetches && forall d :: Lookup(s.model, ManifestKey(d)) == LastRecord(c, start, from, s.fetches, d)
  }

  /** A Sync under way that has recorded every answer so far. */
  ghost predicate Running(c: Context, from: nat, start: Model, s: State) {
    Sound(c.world) && c.mode == Sync && !s.aborted && Logged(c, from, start, s)
  }

  lemma StartIsRunning(c: Context, s: State)
    requires Sound(c.world) && c.mode == Sync && !s.aborted
    ensures Running(c, s.fetches, s.model, s)
  {
  }

  lemma AdmittedLookup(c: Context, s: State, repo: string, tag: Option<string>, m: Manifest, d: string)
    ensures Lookup(Admitted(c, s, repo, tag, m), ManifestKey(d)) ==
      if d == c.world.digestOf(m.bytes) then Some(EncodeManifest(m)) else Lookup(s.model, ManifestKey(d))
  {
  }

  /** An admitted manifest reads back as its own bytes exactly when its media type fits the codec, and no other digest
      reads back differently. */
  lemma AdmittedReadsBack(c: Context, s: State, repo: string, tag: Option<string>, m: Manifest)
    ensures var read := Stored(Admitted(c, s, repo, tag, m), c.world.digestOf(m.bytes));
      read.Some? && read.value.bytes == m.bytes <==> |m.mediaType| <= MAX_U16
    ensures forall d :: d != c.world.digestOf(m.bytes) ==> Stored(Admitted(c, s, repo, tag, m), d) == Stored(s.model, d)
  {
    BytesReadBack(m);
    AdmittedLookup(c, s, repo, tag, m, c.world.digestOf(m.bytes));
    forall d | d != c.world.digestOf(m.bytes) ensures Stored(Admitted(c, s, repo, tag, m), d) == Stored(s.model, d) {
      AdmittedLookup(c, s, repo, tag, m, d);
    }
  }

  /** Admitting a manifest makes it a member of the repository and its blobs blob members, and drops no membership. */
  lemma AdmittedMembers(c: Context, s: State, repo: string, tag: Option<string>, m: Manifest)
    ensures var model := Admitted(c, s, repo, tag, m);
      && IsMember(model, c.index, repo, c.world.digestOf(m.bytes))
      && ServesBlobs(c, model, repo, m.bytes)
      && KeepsMembers(s.model, model)
  {
    var digest := c.world.digestOf(m.bytes);
    var model, recorded := Admitted(c, s, repo, tag, m), Recorded(s.model, c.world.describe, c.index, repo, digest, m);
    RecordedMembers(s.model, c.world.describe, c.index, repo, digest, m, c.index, repo, digest);
    forall i, r, d | IsMember(s.model, i, r, d) ensures IsMember(model, i, r, d) {
      RecordedMembers(s.model, c.world.describe, c.index, repo, digest, m, i, r, d);
    }
    forall i, r, d | IsBlobMember(s.model, i, r, d) ensures IsBlobMember(model, i, r, d) {
      RecordedBlobs(s.model, c.world.describe, c.index, repo, digest, m, i, r, d);
    }
    forall d | d in c.world.describe(m.bytes).1 ensures IsBlobMember(model, c.index, repo, d) {
      RecordedBlobs(s.model, c.world.describe, c.index, repo, digest, m, c.index, repo, d);
    }
  }

  /** The repository serves every blob these bytes name. */
  ghost predicate ServesBlobs(c: Context, model: Model, repo: string, b: string) {
    forall d :: d in c.world.describe(b).1 ==> IsBlobMember(model, c.index, repo, d)
  }

  ghost predicate KeepsMembers(before: Model, after: Model) {
    && (forall i, r, d :: IsMember(before, i, r, d) ==> IsMember(after, i, r, d))
    && (forall i, r, d :: IsBlobMember(before, i, r, d) ==> IsBlobMember(after, i, r, d))
  }

  lemma AdmittedTag(c: Context, s: State, repo: string, tag: Option<string>, m: Manifest)
    requires Sound(c.world)
    ensures var model := Admitted(c, s, repo, tag, m);
      && (tag.Some? ==> Target(model, c.index, repo, tag.value) == Some(c.world.digestOf(m.bytes)))
      && (forall i, r, t :: (i, r, Some(t)) != (c.index, repo, tag) ==> Target(model, i, r, t) == Target(s.model, i, r, t))
  {
    var digest := c.world.digestOf(m.bytes);
    var recorded := Recorded(s.model, c.world.describe, c.index, repo, digest, m);
    forall i, r, t ensures Target(recorded, i, r, t) == Target(s.model, i, r, t) {
    }
    TaggedTarget(recorded, c.index, repo, tag, digest, EncodeFresh(c.outside.now(s.fetches), digest));
  }

  lemma TaggedTarget(model: Model, index: string, repo: string, tag: Option<string>, digest: string, freshness: string)
    requires ValidUtf8(digest)
    ensures tag.Some? ==>
      (var tagged := model[TagKey(index, repo, tag.value) := digest][FreshKey(index, repo, tag.value) := freshness];
       && Target(tagged, index, repo, tag.value) == Some(digest)
       && forall i, r, t :: (i, r, Some(t)) != (index, repo, tag) ==> Target(tagged, i, r, t) == Target(model, i, r, t))
  {
  }

  // ----- Runs only add -----

  ghost predicate Extends(s: State, s': State) {
    s.rows <= s'.rows && s.blobs <= s'.blobs && s.fetches <= s'.fetches && KeepsMembers(s.model, s'.model)
  }

  ghost predicate SameTags(s: State, s': State) {
    forall i, r, t :: Target(s.model, i, r, t) == Target(s'.model, i, r, t)
  }

  /** A request of a Sync that hands back a manifest has recorded it, and nothing else about the stores changed. */
  lemma ManifestOfAdmits(c: Context, s: State, repo: string, reference: string, tag: Option<string>)
    requires c.mode == Sync
    ensures var (s', m) := ManifestOf(c, s, repo, reference, tag);
      && s'.blobs == s.blobs && s'.fetches == s.fetches + 1 && s.rows <= s'.rows
      && (m.None? ==> s'.model == s.model && (s'.aborted || !NoErrors(s'.rows)))
      && (m.Some? ==> s'.model == Admitted(c, s, repo, tag, m.value) && s'.aborted == s.aborted && AnswerTo(c, s.fetches) == m)
  {
    var (s', m) := ManifestOf(c, s, repo, reference, tag);
    if m.None? && !s'.aborted { assert s'.rows[|s.rows|].status == Error; }
  }

  lemma ManifestOfExtends(c: Context, s: State, repo: string, reference: string, tag: Option<string>)
    requires Sound(c.world) && c.mode == Sync
    ensures Extends(s, ManifestOf(c, s, repo, reference, tag).0)
    ensures tag.None? ==> SameTags(s, ManifestOf(c, s, repo, reference, tag).0)
  {
    var (s', m) := ManifestOf(c, s, repo, reference, tag);
    ManifestOfAdmits(c, s, repo, reference, tag);
    if m.Some? { AdmittedExtends(c, s, s', repo, tag, m.value); }
  }

  lemma AdmittedExtends(c: Context, s: State, s': State, repo: string, tag: Option<string>, m: Manifest)
    requires Sound(c.world) && s'.model == Admitted(c, s, repo, tag, m)
    requires s'.blobs == s.blobs && s.fetches <= s'.fetches && s.rows <= s'.rows
    ensures Extends(s, s') && (tag.None? ==> SameTags(s, s'))
  {
    AdmittedMembers(c, s, repo, tag, m);
    AdmittedTag(c, s, repo, tag, m);
  }

  lemma {:induction false} ChildrenExtend(c: Context, s: State, repo: string, digests: seq<string>)
    requires Sound(c.world) && c.mode == Sync
    ensures Extends(s, Children(c, s, repo, digests).0) && SameTags(s, Children(c, s, repo, digests).0)
    decreases |digests|
  {
    if digests != [] && !s.aborted {
      ManifestOfExtends(c, s, repo, digests[0], None);
      ChildrenExtend(c, ManifestOf(c, s, repo, digests[0], None).0, repo, digests[1..]);
    }
  }

  lemma {:induction false} BlobsExtend(c: Context, s: State, repo: string, digests: seq<string>)
    ensures Extends(s, Blobs(c, s, repo, digests)) && SameTags(s, Blobs(c, s, repo, digests))
    decreases |digests|
  {
    if digests != [] { BlobsExtend(c, Blob(c, s, repo, digests[0]), repo, digests[1..]); }
  }

  lemma TurnExtends(c: Context, s: State, repo: string, b: string)
    requires Sound(c.world) && c.mode == Sync
    ensures Extends(s, Turn(c, s, repo, b).0) && SameTags(s, Turn(c, s, repo, b).0)
  {
    var (children, blobs) := c.world.describe(b);
    ChildrenExtend(c, s, repo, children);
    BlobsExtend(c, Children(c, s, repo, children).0, repo, blobs);
  }

  lemma {:induction false} WalkExtends(c: Context, s: State, repo: string, pending: seq<string>)
    requires Sound(c.world) && c.mode == Sync
    ensures Extends(s, Walk(c, s, repo, pending)) && SameTags(s, Walk(c, s, repo, pending))
    decreases PendingCost(c.world, pending)
  {
    if pending != [] && !s.aborted {
      var last := |pending| - 1;
      PendingShrinks(c, s, repo, pending);
      TurnExtends(c, s, repo, pending[last]);
      var (s', pushed) := Turn(c, s, repo, pending[last]);
      WalkExtends(c, s', repo, pending[..last] + pushed);
    }
  }

  // ----- What has arrived -----

  /** These bytes were fetched by the run, and their digest and blobs are recorded for the repository. */
  ghost predicate Arrived(c: Context, from: nat, s: State, repo: string, b: string) {
    Got(c, from, s, b) && IsMember(s.model, c.index, repo, c.world.digestOf(b)) && ServesBlobs(c, s.model, repo, b)
  }

  ghost predicate BlobsHere(w: World, blobs: set<string>, digests: seq<string>) {
    forall x :: x in digests ==> w.storage(x).Some? && w.storage(x).value in blobs
  }

  /** Everything reachable from `b` has arrived, and every blob it names is here. */
  ghost predicate Complete(c: Context, from: nat, s: State, repo: string, b: string)
    requires Sound(c.world)
    decreases c.world.rank(b)
  {
    && Arrived(c, from, s, repo, b) && BlobsHere(c.world, s.blobs, c.world.describe(b).1)
    && forall d :: d in c.world.describe(b).0 ==> exists x :: IsContent(c.world, d, x) && Complete(c, from, s, repo, x)
  }

  lemma ArrivedStays(c: Context, from: nat, s: State, s': State, repo: string, b: string)
    requires Extends(s, s') && Arrived(c, from, s, repo, b)
    ensures Arrived(c, from, s', repo, b)
  {
    var n :| from <= n < s.fetches && Answered(c, n, b);
    assert from <= n < s'.fetches && Answered(c, n, b);
  }

  /** What is complete stays complete as the run goes on. */
  lemma {:induction false} CompleteStays(c: Context, from: nat, s: State, s': State, repo: string, b: string)
    requires Sound(c.world) && Extends(s, s') && Complete(c, from, s, repo, b)
    ensures Complete(c, from, s', repo, b)
    decreases c.world.rank(b)
  {
    ArrivedStays(c, from, s, s', repo, b);
    forall d | d in c.world.describe(b).0 ensures exists x :: IsContent(c.world, d, x) && Complete(c, from, s', repo, x) {
      var x :| IsContent(c.world, d, x) && Complete(c, from, s, repo, x);
      CompleteStays(c, from, s, s', repo, x);
    }
  }

  // ----- An error-free Sync is complete -----

  lemma NoErrorsBefore(before: seq<Row>, after: seq<Row>)
    requires before <= after && NoErrors(after)
    ensures NoErrors(before)
  {
    forall i | 0 <= i < |before| ensures before[i].status != Error { assert before[i] == after[i]; }
  }

  lemma AdmittedLogs(c: Context, from: nat, start: Model, s: State, repo: string, tag: Option<string>, m: Manifest)
    requires Logged(c, from, start, s) && AnswerTo(c, s.fetches) == Some(m)
    ensures forall d :: Lookup(Admitted(c, s, repo, tag, m), ManifestKey(d)) == LastRecord(c, start, from, s.fetches + 1, d)
  {
    forall d ensures Lookup(Admitted(c, s, repo, tag, m), ManifestKey(d)) == LastRecord(c, start, from, s.fetches + 1, d) {
      AdmittedLookup(c, s, repo, tag, m, d);
    }
  }

  lemma AdmittedArrives(c: Context, from: nat, start: Model, s: State, s': State, repo: string, tag: Option<string>, m: Manifest)
    requires Running(c, from, start, s) && AnswerTo(c, s.fetches) == Some(m)
    requires s'.model == Admitted(c, s, repo, tag, m) && s'.fetches == s.fetches + 1 && !s'.aborted
    ensures Running(c, from, start, s') && Arrived(c, from, s', repo, m.bytes)
  {
    AdmittedLogs(c, from, start, s, repo, tag, m);
    AdmittedMembers(c, s, repo, tag, m);
    assert Answered(c, s.fetches, m.bytes);
  }

  lemma ManifestOfSync(c: Context, from: nat, start: Model, s: State, repo: string, reference: string, tag: Option<string>)
    requires Running(c, from, start, s)
    ensures var (s', m) := ManifestOf(c, s, repo, reference, tag);
      !s'.aborted && NoErrors(s'.rows) ==> m.Some? && Running(c, from, start, s') && Arrived(c, from, s', repo, m.value.bytes)
  {
    var (s', m) := ManifestOf(c, s, repo, reference, tag);
    ManifestOfAdmits(c, s, repo, reference, tag);
    if m.Some? { AdmittedArrives(c, from, start, s, s', repo, tag, m.value); }
  }

  /** Every child was handed back and has arrived. */
  lemma {:induction false} ChildrenSync(c: Context, from: nat, start: Model, s: State, repo: string, digests: seq<string>)
    requires Running(c, from, start, s)
    requires var (s', _) := Children(c, s, repo, digests); !s'.aborted && NoErrors(s'.rows)
    ensures var (s', pushed) := Children(c, s, repo, digests);
      && Running(c, from, start, s')
      && (forall d :: d in digests ==> exists x :: x in pushed && IsContent(c.world, d, x))
      && (forall x :: x in pushed ==> Arrived(c, from, s', repo, x))
    decreases |digests|
  {
    if digests != [] {
      var (s1, m) := ManifestOf(c, s, repo, digests[0], None);
      var (s2, pushed) := Children(c, s1, repo, digests[1..]);
      ChildrenExtend(c, s1, repo, digests[1..]);
      NoErrorsBefore(s1.rows, s2.rows);
      ManifestOfSync(c, from, start, s, repo, digests[0], None);
      FetchedIsContent(c, s, repo, digests[0]);
      ChildrenSync(c, from, start, s1, repo, digests[1..]);
      ArrivedStays(c, from, s1, s2, repo, m.value.bytes);
      var all := [m.value.bytes] + pushed;
      forall d | d in digests ensures exists x :: x in all && IsContent(c.world, d, x) {
        if d == digests[0] {
          assert m.value.bytes in all;
        } else {
          assert d in digests[1..];
          var x :| x in pushed && IsContent(c.world, d, x);
          assert x in all;
        }
      }
    }
  }

  lemma {:induction false} BlobsSync(c: Context, s: State, repo: string, digests: seq<string>)
    requires NoErrors(Blobs(c, s, repo, digests).rows)
    ensures BlobsHere(c.world, Blobs(c, s, repo, digests).blobs, digests)
    decreases |digests|
  {
    if digests != [] {
      var s1 := Blob(c, s, repo, digests[0]);
      var s2 := Blobs(c, s1, repo, digests[1..]);
      BlobsExtend(c, s1, repo, digests[1..]);
      NoErrorsBefore(s1.rows, s2.rows);
      assert s1.rows[|s.rows|].status != Error;
      BlobsSync(c, s1, repo, digests[1..]);
    }
  }

  lemma TurnSync(c: Context, from: nat, start: Model, s: State, repo: string, b: string)
    requires Running(c, from, start, s)
    requires var (s', _) := Turn(c, s, repo, b); !s'.aborted && NoErrors(s'.rows)
    ensures var (s', pushed) := Turn(c, s, repo, b);
      && Extends(s, s') && Running(c, from, start, s')
      && (forall d :: d in c.world.describe(b).0 ==> exists x :: x in pushed && IsContent(c.world, d, x))
      && (forall x :: x in pushed ==> Arrived(c, from, s', repo, x))
      && BlobsHere(c.world, s'.blobs, c.world.describe(b).1)
  {
    var (children, blobs) := c.world.describe(b);
    var (s1, pushed) := Children(c, s, repo, children);
    var s' := Blobs(c, s1, repo, blobs);
    TurnExtends(c, s, repo, b);
    BlobsExtend(c, s1, repo, blobs);
    BlobsKeepModel(c, s1, repo, blobs);
    NoErrorsBefore(s1.rows, s'.rows);
    ChildrenSync(c, from, start, s, repo, children);
    BlobsSync(c, s1, repo, blobs);
    forall x | x in pushed ensures Arrived(c, from, s', repo, x) { ArrivedStays(c, from, s1, s', repo, x); }
  }

  lemma TurnCompletes(c: Context, from: nat, s: State, s': State, final: State, repo: string, b: string, pushed: seq<string>)
    requires Sound(c.world) && Arrived(c, from, s, repo, b) && Extends(s, s') && Extends(s', final)
    requires BlobsHere(c.world, s'.blobs, c.world.describe(b).1)
    requires forall d :: d in c.world.describe(b).0 ==> exists x :: x in pushed && IsContent(c.world, d, x)
    requires forall x :: x in pushed ==> Complete(c, from, final, repo, x)
    ensures Complete(c, from, final, repo, b)
  {
    ArrivedStays(c, from, s, s', repo, b);
    ArrivedStays(c, from, s', final, repo, b);
    forall d | d in c.world.describe(b).0 ensures exists x :: IsContent(c.world, d, x) && Complete(c, from, final, repo, x) {
      var x :| x in pushed && IsContent(c.world, d, x);
    }
  }

  /** A walk that ends without fault or error row leaves everything reachable from its stack complete. */
  lemma {:induction false} WalkSync(c: Context, from: nat, start: Model, s: State, repo: string, pending: seq<string>)
    requires Running(c, from, start, s)
    requires forall b :: b in pending ==> Arrived(c, from, s, repo, b)
    requires var final := Walk(c, s, repo, pending); !final.aborted && NoErrors(final.rows)
    ensures Running(c, from, start, Walk(c, s, repo, pending))
    ensures forall b :: b in pending ==> Complete(c, from, Walk(c, s, repo, pending), repo, b)
    decreases PendingCost(c.world, pending)
  {
    if pending != [] {
      var last := |pending| - 1;
      var b := pending[last];
      var (s', pushed) := Turn(c, s, repo, b);
      var rest := pending[..last] + pushed;
      PendingShrinks(c, s, repo, pending);
      var final := Walk(c, s', repo, rest);
      WalkExtends(c, s', repo, rest);
      NoErrorsBefore(s'.rows, final.rows);
      assert !s'.aborted;
      TurnSync(c, from, start, s, repo, b);
      forall x | x in rest ensures Arrived(c, from, s', repo, x) {
        if x in pending[..last] {
          assert x in pending;
          ArrivedStays(c, from, s, s', repo, x);
        }
      }
      WalkSync(c, from, start, s', repo, rest);
      TurnCompletes(c, from, s, s', final, repo, b, pushed);
      forall x | x in pending ensures Complete(c, from, final, repo, x) {
        if x != b {
          assert x in pending[..last];
          assert x in rest;
        }
      }
    }
  }

  // ----- References -----

  ghost predicate RefersTo(c: Context, s: State, image: ImageRef, digest: string) {
    if image.byDigest then image.reference == digest
    else Target(s.model, c.index, image.repo, image.reference) == Some(digest)
  }

  /** The reference names a manifest whose whole graph is complete. */
  ghost predicate MirroredImage(c: Context, from: nat, s: State, image: ImageRef)
    requires Sound(c.world)
  {
    exists b :: Complete(c, from, s, image.repo, b) && RefersTo(c, s, image, c.world.digestOf(b))
  }

  ghost predicate Mirrored(c: Context, from: nat, s: State, raw: string)
    requires Sound(c.world)
  {
    ParseRef(raw).Some? && MirroredImage(c, from, s, ParseRef(raw).value)
  }

  ghost predicate AllMirrored(c: Context, from: nat, s: State, refs: seq<string>)
    requires Sound(c.world)
  {
    forall r :: r in refs ==> Mirrored(c, from, s, r)
  }

  /** Only the image's own tag may have moved. */
  ghost predicate OtherTagsStay(c: Context, s: State, s': State, image: ImageRef) {
    forall i, r, t :: (i, r, Some(t)) != (c.index, image.repo, TagOf(image)) ==> Target(s'.model, i, r, t) == Target(s.model, i, r, t)
  }

  /** The first request of a reference: the manifest arrives and the reference names it. */
  lemma RootSync(c: Context, from: nat, start: Model, s: State, image: ImageRef)
    requires Running(c, from, start, s)
    requires var s' := ManifestOf(c, s, image.repo, image.reference, TagOf(image)).0; !s'.aborted && NoErrors(s'.rows)
    ensures var (s', m) := ManifestOf(c, s, image.repo, image.reference, TagOf(image));
      && m.Some? && Running(c, from, start, s') && Arrived(c, from, s', image.repo, m.value.bytes)
      && RefersTo(c, s', image, c.world.digestOf(m.value.bytes)) && OtherTagsStay(c, s, s', image)
  {
    var (s', m) := ManifestOf(c, s, image.repo, image.reference, TagOf(image));
    ManifestOfSync(c, from, start, s, image.repo, image.reference, TagOf(image));
    ManifestOfAdmits(c, s, image.repo, image.reference, TagOf(image));
    AdmittedTag(c, s, image.repo, TagOf(image), m.value);
    if image.byDigest { FetchedIsContent(c, s, image.repo, image.reference); }
  }

  /** The walk from there completes what the reference names. */
  lemma WalkMirrors(c: Context, from: nat, start: Model, s: State, image: ImageRef, b: string)
    requires Running(c, from, start, s) && Arrived(c, from, s, image.repo, b) && RefersTo(c, s, image, c.world.digestOf(b))
    requires var final := Walk(c, s, image.repo, [b]); !final.aborted && NoErrors(final.rows)
    ensures var final := Walk(c, s, image.repo, [b]);
      Extends(s, final) && SameTags(s, final) && Running(c, from, start, final) && MirroredImage(c, from, final, image)
  {
    WalkExtends(c, s, image.repo, [b]);
    WalkSync(c, from, start, s, image.repo, [b]);
    assert b in [b];
  }

  lemma OneRefSync(c: Context, from: nat, start: Model, s: State, image: ImageRef)
    requires Running(c, from, start, s)
    requires var final := OneRef(c, s, image); !final.aborted && NoErrors(final.rows)
    ensures Extends(s, OneRef(c, s, image)) && Running(c, from, start, OneRef(c, s, image))
    ensures MirroredImage(c, from, OneRef(c, s, image), image) && OtherTagsStay(c, s, OneRef(c, s, image), image)
  {
    var (s', m) := ManifestOf(c, s, image.repo, image.reference, TagOf(image));
    ManifestOfExtends(c, s, image.repo, image.reference, TagOf(image));
    if !s'.aborted && m.Some? {
      WalkExtends(c, s', image.repo, [m.value.bytes]);
      NoErrorsBefore(s'.rows, Walk(c, s', image.repo, [m.value.bytes]).rows);
      RootSync(c, from, start, s, image);
      WalkMirrors(c, from, start, s', image, m.value.bytes);
    } else {
      ManifestOfAdmits(c, s, image.repo, image.reference, TagOf(image));
      assert false;
    }
  }

  /** A later reference leaves an earlier one mirrored, even when it moves the same tag. */
  lemma MirroredStays(c: Context, from: nat, start: Model, s: State, image: ImageRef, earlier: ImageRef)
    requires Running(c, from, start, s) && MirroredImage(c, from, s, earlier)
    requires var final := OneRef(c, s, image); !final.aborted && NoErrors(final.rows)
    ensures MirroredImage(c, from, OneRef(c, s, image), earlier)
  {
    var final := OneRef(c, s, image);
    OneRefSync(c, from, start, s, image);
    var b :| Complete(c, from, s, earlier.repo, b) && RefersTo(c, s, earlier, c.world.digestOf(b));
    CompleteStays(c, from, s, final, earlier.repo, b);
  }

  /** One reference of an error-free Sync is mirrored afterwards, and so is every reference that was before. */
  lemma RefStepSync(c: Context, from: nat, start: Model, s: State, raw: string)
    requires Running(c, from, start, s)
    requires var final := RefStep(c, s, raw); !final.aborted && NoErrors(final.rows)
    ensures Running(c, from, start, RefStep(c, s, raw)) && Mirrored(c, from, RefStep(c, s, raw), raw)
    ensures KeepsMirrored(c, from, s, RefStep(c, s, raw))
  {
    var parsed := ParseRef(raw);
    if parsed.None? {
      AppendedRow(s.rows, Row(ManifestRow, raw, "", "", Error, 0));
      assert false;
    } else {
      OneRefSync(c, from, start, s, parsed.value);
      forall earlier | Mirrored(c, from, s, earlier) ensures Mirrored(c, from, RefStep(c, s, raw), earlier) {
        MirroredStays(c, from, start, s, parsed.value, ParseRef(earlier).value);
      }
    }
  }

  lemma AppendedRow(rows: seq<Row>, row: Row)
    ensures NoErrors(rows + [row]) <==> NoErrors(rows) && row.status != Error
  {
    if NoErrors(rows + [row]) {
      assert (rows + [row])[|rows|] == row;
      NoErrorsBefore(rows, rows + [row]);
    }
  }

  /** Rows are only appended, and a fault is final. */
  lemma {:induction false} RefsExtend(c: Context, s: State, refs: seq<string>)
    requires Sound(c.world) && c.mode == Sync
    ensures s.rows <= Refs(c, s, refs).rows
    ensures s.aborted ==> Refs(c, s, refs).aborted
    decreases |refs|
  {
    if refs != [] && !s.aborted {
      RefStepRows(c, s, refs[0]);
      RefsExtend(c, RefStep(c, s, refs[0]), refs[1..]);
    }
  }

  lemma RefStepRows(c: Context, s: State, raw: string)
    requires Sound(c.world) && c.mode == Sync
    ensures s.rows <= RefStep(c, s, raw).rows
  {
    if ParseRef(raw).Some? {
      var image := ParseRef(raw).value;
      ManifestOfExtends(c, s, image.repo, image.reference, TagOf(image));
      var (s', m) := ManifestOf(c, s, image.repo, image.reference, TagOf(image));
      if m.Some? { WalkExtends(c, s', image.repo, [m.value.bytes]); }
    }
  }

  /** What was mirrored before still is. */
  ghost predicate KeepsMirrored(c: Context, from: nat, s: State, s': State)
    requires Sound(c.world)
  {
    forall r :: Mirrored(c, from, s, r) ==> Mirrored(c, from, s', r)
  }

  /** The first reference of a clean run is clean itself. */
  lemma FirstIsClean(c: Context, s: State, refs: seq<string>)
    requires Sound(c.world) && c.mode == Sync && !s.aborted && refs != []
    requires var final := Refs(c, s, refs); !final.aborted && NoErrors(final.rows)
    ensures var s' := RefStep(c, s, refs[0]); !s'.aborted && NoErrors(s'.rows) && Refs(c, s, refs) == Refs(c, s', refs[1..])
  {
    var s' := RefStep(c, s, refs[0]);
    RefsExtend(c, s', refs[1..]);
    NoErrorsBefore(s'.rows, Refs(c, s', refs[1..]).rows);
  }

  /** A Sync that ends without fault or error row leaves every requested reference naming a complete graph, later ones
      not undoing earlier ones. */
  lemma {:induction false} SyncIsComplete(c: Context, from: nat, start: Model, s: State, refs: seq<string>)
    requires Running(c, from, start, s)
    requires var final := Refs(c, s, refs); !final.aborted && NoErrors(final.rows)
    ensures Running(c, from, start, Refs(c, s, refs))
    ensures AllMirrored(c, from, Refs(c, s, refs), refs) && KeepsMirrored(c, from, s, Refs(c, s, refs))
    decreases |refs|
  {
    if refs != [] {
      FirstIsClean(c, s, refs);
      RefStepSync(c, from, start, s, refs[0]);
      var s' := RefStep(c, s, refs[0]);
      SyncIsComplete(c, from, start, s', refs[1..]);
      forall r | r in refs ensures Mirrored(c, from, Refs(c, s', refs[1..]), r) { assert r == refs[0] || r in refs[1..]; }
    }
  }

  // ----- The promise, along every path of the graph -----

  /** `b` is reached from `root` by following the child digests of `path`. */
  ghost predicate ReachedBy(w: World, root: string, path: seq<string>, b: string)
    decreases |path|
  {
    if path == [] then root == b
    else path[0] in w.describe(root).0 && exists x :: IsContent(w, path[0], x) && ReachedBy(w, x, path[1..], b)
  }

  /** `b` lies below one of the references, as it resolves in `s`, under this repository. */
  ghost predicate Needed(c: Context, s: State, refs: seq<string>, repo: string, b: string) {
    exists raw, root, path :: NeededBy(c, s, refs, repo, raw, root, path, b)
  }

  ghost predicate NeededBy(c: Context, s: State, refs: seq<string>, repo: string, raw: string, root: string, path: seq<string>, b: string) {
    && raw in refs && ParseRef(raw).Some? && ParseRef(raw).value.repo == repo
    && RefersTo(c, s, ParseRef(raw).value, c.world.digestOf(root)) && ReachedBy(c.world, root, path, b)
  }

  lemma {:induction false} CompleteReaches(c: Context, from: nat, s: State, repo: string, root: string, path: seq<string>, b: string)
    requires Sound(c.world) && Complete(c, from, s, repo, root) && ReachedBy(c.world, root, path, b)
    ensures Complete(c, from, s, repo, b)
    decreases |path|
  {
    if path != [] {
      var x :| IsContent(c.world, path[0], x) && ReachedBy(c.world, x, path[1..], b);
      var y :| IsContent(c.world, path[0], y) && Complete(c, from, s, repo, y);
      CompleteReaches(c, from, s, repo, x, path[1..], b);
    }
  }

  lemma NeededIsComplete(c: Context, from: nat, s: State, refs: seq<string>, repo: string, b: string)
    requires Sound(c.world) && AllMirrored(c, from, s, refs) && Needed(c, s, refs, repo, b)
    ensures Complete(c, from, s, repo, b)
  {
    var raw, root, path :| NeededBy(c, s, refs, repo, raw, root, path, b);
    assert Mirrored(c, from, s, raw);
    var image := ParseRef(raw).value;
    var own :| Complete(c, from, s, image.repo, own) && RefersTo(c, s, image, c.world.digestOf(own));
    assert c.world.content(c.world.digestOf(own)) == Some(own) && c.world.content(c.world.digestOf(root)) == Some(root);
    CompleteReaches(c, from, s, repo, root, path, b);
  }

  /** No later request of the run was answered for the same digest. */
  ghost predicate Latest(c: Context, from: nat, until: nat, n: nat) {
    && from <= n < until && AnswerTo(c, n).Some?
    && forall k :: n < k < until ==> !AnswersFor(c, k, c.world.digestOf(AnswerTo(c, n).value.bytes))
  }

  /** The record of a digest the run was answered for is that of the latest answer. */
  lemma {:induction false} LatestRecord(c: Context, start: Model, from: nat, until: nat, digest: string, some: nat) returns (n: nat)
    requires from <= some < until && AnswersFor(c, some, digest)
    ensures Latest(c, from, until, n) && AnswersFor(c, n, digest)
    ensures LastRecord(c, start, from, until, digest) == Some(EncodeManifest(AnswerTo(c, n).value))
    decreases until
  {
    if AnswersFor(c, until - 1, digest) {
      n := until - 1;
    } else {
      n := LatestRecord(c, start, from, until - 1, digest, some);
    }
  }

  /** The record of these bytes was written, under whatever media type the answer carried. */
  ghost predicate Written(c: Context, s: State, b: string) {
    exists t: Text :: Lookup(s.model, ManifestKey(c.world.digestOf(b))) == Some(EncodeManifest(Manifest(t, b)))
  }

  /** The manifest with these bytes reads back under its digest and is recorded for the repository. */
  ghost predicate Held(c: Context, s: State, repo: string, b: string) {
    var d := c.world.digestOf(b);
    Stored(s.model, d).Some? && Stored(s.model, d).value.bytes == b && IsMember(s.model, c.index, repo, d)
  }

  lemma ArrivedIsWritten(c: Context, from: nat, start: Model, s: State, repo: string, b: string) returns (n: nat)
    requires Running(c, from, start, s) && Arrived(c, from, s, repo, b)
    ensures Latest(c, from, s.fetches, n) && Answered(c, n, b) && Written(c, s, b)
    ensures Held(c, s, repo, b) <==> |MediaType(c.outside.manifest(n))| <= MAX_U16
  {
    var some :| from <= some < s.fetches && Answered(c, some, b);
    var d := c.world.digestOf(b);
    assert AnswersFor(c, some, d);
    n := LatestRecord(c, start, from, s.fetches, d, some);
    var m := AnswerTo(c, n).value;
    assert c.world.content(d) == Some(b) == Some(m.bytes);
    assert Lookup(s.model, ManifestKey(d)) == Some(EncodeManifest(Manifest(m.mediaType, b)));
    BytesReadBack(m);
  }

  /** One request that hands back a manifest leaves it readable under its digest exactly when its media type fits. */
  lemma RequestHoldsIff(c: Context, s: State, repo: string, reference: string, tag: Option<string>)
    requires c.mode == Sync
    ensures var (s', m) := ManifestOf(c, s, repo, reference, tag);
      m.Some? ==> (Held(c, s', repo, m.value.bytes) <==> |m.value.mediaType| <= MAX_U16)
  {
    var (s', m) := ManifestOf(c, s, repo, reference, tag);
    ManifestOfAdmits(c, s, repo, reference, tag);
    if m.Some? {
      AdmittedReadsBack(c, s, repo, tag, m.value);
      AdmittedMembers(c, s, repo, tag, m.value);
    }
  }

  /** The promise of an error-free Sync: every reference names a manifest, and for everything below it the record of its
      bytes is written under its digest, it and its blobs are ones the repository serves, and its blobs are in the blob
      store. */
  lemma SyncMirrorsGraph(c: Context, s: State, refs: seq<string>)
    requires Sound(c.world) && c.mode == Sync && !s.aborted
    requires var final := Refs(c, s, refs); !final.aborted && NoErrors(final.rows)
    ensures forall raw :: raw in refs ==> ParseRef(raw).Some? && MirroredImage(c, s.fetches, Refs(c, s, refs), ParseRef(raw).value)
    ensures forall repo, b :: Needed(c, Refs(c, s, refs), refs, repo, b) ==>
      && Written(c, Refs(c, s, refs), b)
      && IsMember(Refs(c, s, refs).model, c.index, repo, c.world.digestOf(b))
      && ServesBlobs(c, Refs(c, s, refs).model, repo, b)
      && BlobsHere(c.world, Refs(c, s, refs).blobs, c.world.describe(b).1)
  {
    var final := Refs(c, s, refs);
    StartIsRunning(c, s);
    SyncIsComplete(c, s.fetches, s.model, s, refs);
    forall raw | raw in refs ensures Mirrored(c, s.fetches, final, raw) {}
    forall repo, b | Needed(c, final, refs, repo, b)
      ensures Written(c, final, b) && IsMember(final.model, c.index, repo, c.world.digestOf(b)) && ServesBlobs(c, final.model, repo, b)
      ensures BlobsHere(c.world, final.blobs, c.world.describe(b).1)
    {
      NeededIsComplete(c, s.fetches, final, refs, repo, b);
      var _ := ArrivedIsWritten(c, s.fetches, s.model, final, repo, b);
    }
  }

  /** The latest answer with these bytes carried a media type that fits the codec. */
  ghost predicate Short(c: Context, from: nat, until: nat, b: string) {
    forall n :: Latest(c, from, until, n) && Answered(c, n, b) ==> |MediaType(c.outside.manifest(n))| <= MAX_U16
  }

  lemma LatestIsOne(c: Context, from: nat, until: nat, m: nat, n: nat, b: string)
    requires Latest(c, from, until, m) && Answered(c, m, b) && Latest(c, from, until, n) && Answered(c, n, b)
    ensures m == n
  {
    assert AnswersFor(c, m, c.world.digestOf(b)) && AnswersFor(c, n, c.world.digestOf(b));
  }

  /** Exactly which manifests below the references an error-free Sync leaves readable: those whose latest answer carried a
      media type of at most 65535 bytes. */
  lemma SyncReadsBack(c: Context, s: State, refs: seq<string>, repo: string, b: string)
    requires Sound(c.world) && c.mode == Sync && !s.aborted
    requires var final := Refs(c, s, refs); !final.aborted && NoErrors(final.rows) && Needed(c, final, refs, repo, b)
    ensures var final := Refs(c, s, refs); Held(c, final, repo, b) <==> Short(c, s.fetches, final.fetches, b)
  {
    var final := Refs(c, s, refs);
    StartIsRunning(c, s);
    SyncIsComplete(c, s.fetches, s.model, s, refs);
    NeededIsComplete(c, s.fetches, final, refs, repo, b);
    var n := ArrivedIsWritten(c, s.fetches, s.model, final, repo, b);
    forall k | Latest(c, s.fetches, final.fetches, k) && Answered(c, k, b) ensures k == n {
      LatestIsOne(c, s.fetches, final.fetches, k, n, b);
    }
  }
}
