/** What a mirror run tells and what it touches: the answer of every request, one report row for everything asked for, and
    no record outside the requested repositories (crates/peryx-ecosystem-oci/src/mirror.rs). */
module MirrorReport {
  import opened Common
  import opened OciKeys
  import opened OciModel
  import opened WorkStack
  import opened MirrorSpec

  // ----- One request -----

  /** A Sync request, by what the network answers. An oversized body ends the run without a row. Otherwise one row is added,
      and the manifest is taken exactly when a body arrived that is the requested one: any for a tag, the one with that
      digest for a digest. A body without a media type gets the default one. */
  lemma FetchExact(c: Context, s: State, repo: string, reference: string, tag: Option<string>)
    requires c.mode == Sync
    ensures var (s', m) := ManifestOf(c, s, repo, reference, tag); var answer := c.outside.manifest(s.fetches);
      && s'.fetches == s.fetches + 1 && s'.blobs == s.blobs && s'.lookups == s.lookups
      && (s'.aborted <==> s.aborted || answer.Oversized?)
      && (m.Some? <==> answer.Body? && (tag.Some? || c.world.digestOf(answer.bytes) == reference))
      && (m.Some? ==> m.value == Manifest(
            if answer.mediaType.Some? then answer.mediaType.value else DefaultType(), answer.bytes))
      && (m.None? ==> s'.model == s.model)
      && s'.rows == s.rows +
          if m.Some? then [Row(ManifestRow, repo, reference, c.world.digestOf(answer.bytes), Synced, |answer.bytes|)]
          else if answer.Oversized? then [] else [Row(ManifestRow, repo, reference, "", Error, 0)]
    ensures DefaultType() == "application/vnd.oci.image.manifest.v1+json"
  {
  }

  /** What a taken manifest changes, record by record: its own record, the marks of the manifest, its children and its blobs
      in the repository, and for a tag its target and its freshness, dated by the clock. */
  lemma TakenExact(c: Context, s: State, repo: string, reference: string, tag: Option<string>, k: Key)
    requires c.mode == Sync && ManifestOf(c, s, repo, reference, tag).1.Some?
    ensures var (s', m) := ManifestOf(c, s, repo, reference, tag); var digest := c.world.digestOf(m.value.bytes);
      Lookup(s'.model, k) ==
        if k == ManifestKey(digest) then Some(EncodeManifest(m.value))
        else if MarkedBy(c.world.describe, c.index, repo, digest, m.value.bytes, k) then Some("")
        else if k.TagKey? && k.index == c.index && k.repo == repo && tag == Some(k.tag) then Some(digest)
        else if k.FreshKey? && k.index == c.index && k.repo == repo && tag == Some(k.tag)
        then Some(EncodeFresh(c.outside.now(s.fetches), digest))
        else Lookup(s.model, k)
  {
    var (s', m) := ManifestOf(c, s, repo, reference, tag);
    RecordedExact(s.model, c.world.describe, c.index, repo, c.world.digestOf(m.value.bytes), m.value, k);
  }

  /** A Verify request: the manifest under the digest, or under the digest its tag resolves to, and one row that says
      whether it was there. */
  lemma ReadExact(c: Context, s: State, repo: string, reference: string, tag: Option<string>)
    requires c.mode == Verify
    ensures var (s', m) := ManifestOf(c, s, repo, reference, tag);
      var digest := if tag.None? then Some(reference) else Target(s.model, c.index, repo, tag.value);
      && s' == s.(rows := s'.rows)
      && m == (if digest.None? then None else Stored(s.model, digest.value))
      && s'.rows == s.rows + [Row(ManifestRow, repo, reference, if digest.None? then "" else digest.value,
                                  if m.Some? then Cached else Error, 0)]
  {
  }

  /** One blob, one row. It is cached exactly when its lookup finds it; synced, with its size, exactly when a Sync just
      stored it, which is the only change to the blob store; and an error otherwise: under an unsupported digest, after a
      fault, or missing and not to be had. */
  lemma BlobExact(c: Context, s: State, repo: string, digest: string)
    ensures var s' := Blob(c, s, repo, digest);
      var at, fault, arrives := c.world.storage(digest), c.outside.headFails(s.lookups), c.outside.blobArrives(s.lookups);
      var here := at.Some? && !fault && at.value in s.blobs;
      var taken := at.Some? && !fault && at.value !in s.blobs && c.mode == Sync && arrives.Some?;
      && s'.model == s.model && s'.fetches == s.fetches && s'.aborted == s.aborted
      && s'.lookups == s.lookups + (if at.Some? then 1 else 0)
      && s'.blobs == s.blobs + (if taken then {at.value} else {})
      && s'.rows == s.rows + [Row(BlobRow, repo, digest, digest, if here then Cached else if taken then Synced else Error,
                                  if taken then arrives.value else 0)]
  {
  }

  // ----- How a run goes on -----

  /** A record the mirror of these repositories has no business with: a tag page, a referrer, or any record but a manifest of
      another index or repository. */
  ghost predicate Foreign(c: Context, repos: set<string>, k: Key) {
    k.PageKey? || k.ReferrerKey? || (!k.ManifestKey? && (k.index != c.index || k.repo !in repos))
  }

  /** From `s` to `s'` rows are only added, foreign records stay, and the run is cut short exactly by an oversized body. */
  ghost predicate GoesOn(c: Context, repos: set<string>, s: State, s': State) {
    && s.rows <= s'.rows && s.fetches <= s'.fetches
    && (forall k :: Foreign(c, repos, k) ==> Lookup(s'.model, k) == Lookup(s.model, k))
    && (s'.aborted <==> s.aborted || exists n :: s.fetches <= n < s'.fetches && c.outside.manifest(n).Oversized?)
  }

  lemma GoesOnTwice(c: Context, repos: set<string>, s: State, t: State, u: State)
    requires GoesOn(c, repos, s, t) && GoesOn(c, repos, t, u)
    ensures GoesOn(c, repos, s, u)
  {
    forall k | Foreign(c, repos, k) ensures Lookup(u.model, k) == Lookup(s.model, k) {}
  }

  lemma TakenKeepsForeign(c: Context, repos: set<string>, s: State, repo: string, reference: string, tag: Option<string>, k: Key)
    requires c.mode == Sync && ManifestOf(c, s, repo, reference, tag).1.Some? && repo in repos && Foreign(c, repos, k)
    ensures Lookup(ManifestOf(c, s, repo, reference, tag).0.model, k) == Lookup(s.model, k)
  {
    TakenExact(c, s, repo, reference, tag, k);
  }

  lemma RequestGoesOn(c: Context, repos: set<string>, s: State, repo: string, reference: string, tag: Option<string>)
    requires repo in repos
    ensures GoesOn(c, repos, s, ManifestOf(c, s, repo, reference, tag).0)
  {
    var s' := ManifestOf(c, s, repo, reference, tag).0;
    if c.mode == Verify {
      ReadExact(c, s, repo, reference, tag);
    } else {
      assert s.rows <= s'.rows && s'.fetches == s.fetches + 1 && (s'.aborted <==> s.aborted || c.outside.manifest(s.fetches).Oversized?) by {
        FetchExact(c, s, repo, reference, tag);
      }
      forall k | Foreign(c, repos, k) ensures Lookup(s'.model, k) == Lookup(s.model, k) {
        if ManifestOf(c, s, repo, reference, tag).1.Some? { TakenKeepsForeign(c, repos, s, repo, reference, tag, k); }
      }
      assert c.outside.manifest(s.fetches).Oversized? ==> s.fetches < s'.fetches;
    }
  }

  lemma {:induction false} ChildrenGoOn(c: Context, repos: set<string>, s: State, repo: string, digests: seq<string>)
    requires repo in repos
    ensures GoesOn(c, repos, s, Children(c, s, repo, digests).0)
    decreases |digests|
  {
    if digests != [] && !s.aborted {
      var s1 := ManifestOf(c, s, repo, digests[0], None).0;
      RequestGoesOn(c, repos, s, repo, digests[0], None);
      ChildrenGoOn(c, repos, s1, repo, digests[1..]);
      GoesOnTwice(c, repos, s, s1, Children(c, s, repo, digests).0);
    }
  }

  lemma {:induction false} BlobsGoOn(c: Context, repos: set<string>, s: State, repo: string, digests: seq<string>)
    ensures GoesOn(c, repos, s, Blobs(c, s, repo, digests))
    decreases |digests|
  {
    if digests != [] {
      var s1 := Blob(c, s, repo, digests[0]);
      BlobsGoOn(c, repos, s1, repo, digests[1..]);
      GoesOnTwice(c, repos, s, s1, Blobs(c, s, repo, digests));
    }
  }

  lemma TurnGoesOn(c: Context, repos: set<string>, s: State, repo: string, b: string)
    requires repo in repos
    ensures GoesOn(c, repos, s, Turn(c, s, repo, b).0)
  {
    var (children, blobs) := c.world.describe(b);
    var s1 := Children(c, s, repo, children).0;
    ChildrenGoOn(c, repos, s, repo, children);
    BlobsGoOn(c, repos, s1, repo, blobs);
    if !s1.aborted { GoesOnTwice(c, repos, s, s1, Blobs(c, s1, repo, blobs)); }
  }

  lemma {:induction false} WalkGoesOn(c: Context, repos: set<string>, s: State, repo: string, pending: seq<string>)
    requires repo in repos && WalkEnds(c, s, pending)
    ensures GoesOn(c, repos, s, Walk(c, s, repo, pending))
    decreases Remaining(c, s, pending)
  {
    if pending != [] && !s.aborted {
      var last := |pending| - 1;
      var (s', pushed) := Turn(c, s, repo, pending[last]);
      PendingShrinks(c, s, repo, pending);
      TurnGoesOn(c, repos, s, repo, pending[last]);
      WalkGoesOn(c, repos, s', repo, pending[..last] + pushed);
      GoesOnTwice(c, repos, s, s', Walk(c, s, repo, pending));
    }
  }

  /** The row a reference gets for itself. */
  ghost predicate ReportedBy(rows: seq<Row>, from: nat, raw: string) {
    from < |rows| && rows[from].kind == ManifestRow &&
    match ParseRef(raw)
    case None => rows[from].repo == raw && rows[from].reference == "" && rows[from].status == Error
    case Some(image) => rows[from].repo == image.repo && rows[from].reference == image.reference
  }

  lemma RefStepGoesOn(c: Context, repos: set<string>, s: State, raw: string)
    requires RefEnds(c, s.model, raw) && !s.aborted && (ParseRef(raw).Some? ==> ParseRef(raw).value.repo in repos)
    ensures GoesOn(c, repos, s, RefStep(c, s, raw))
    ensures !RefStep(c, s, raw).aborted ==> ReportedBy(RefStep(c, s, raw).rows, |s.rows|, raw)
  {
    if ParseRef(raw).Some? { ImageGoesOn(c, repos, s, ParseRef(raw).value); }
  }

  lemma ImageGoesOn(c: Context, repos: set<string>, s: State, image: ImageRef)
    requires ImageEnds(c, s.model, image) && !s.aborted && image.repo in repos
    ensures GoesOn(c, repos, s, OneRef(c, s, image))
    ensures var rows := OneRef(c, s, image).rows;
      !OneRef(c, s, image).aborted ==> |s.rows| < |rows| && IsAbout(rows[|s.rows|], ManifestRow, image.repo, image.reference)
  {
    var (s', m) := ManifestOf(c, s, image.repo, image.reference, TagOf(image));
    RequestGoesOn(c, repos, s, image.repo, image.reference, TagOf(image));
    if !s'.aborted {
      var row := OneRow(c, s, image.repo, image.reference, TagOf(image));
      assert s'.rows[|s.rows|] == row;
      if m.Some? {
        var final := Walk(c, s', image.repo, [m.value.bytes]);
        WalkGoesOn(c, repos, s', image.repo, [m.value.bytes]);
        GoesOnTwice(c, repos, s, s', final);
        assert final.rows[|s.rows|] == s'.rows[|s.rows|];
      }
    }
  }

  // ----- What a whole run guarantees, clean or not -----

  /** Every reference has its own row after the first `from`. */
  ghost predicate AllReported(rows: seq<Row>, from: nat, refs: seq<string>) {
    forall i :: 0 <= i < |refs| ==> HasRow(rows, from, refs[i])
  }

  ghost predicate HasRow(rows: seq<Row>, from: nat, raw: string) { exists n: nat :: from <= n && ReportedBy(rows, n, raw) }

  lemma ReportedStays(before: seq<Row>, after: seq<Row>, n: nat, raw: string)
    requires before <= after && ReportedBy(before, n, raw)
    ensures ReportedBy(after, n, raw)
  {
  }

  lemma OneMoreReported(rows: seq<Row>, from: nat, next: nat, refs: seq<string>)
    requires refs != [] && from <= next && ReportedBy(rows, from, refs[0]) && AllReported(rows, next, refs[1..])
    ensures AllReported(rows, from, refs)
  {
    assert HasRow(rows, from, refs[0]);
    forall i | 1 <= i < |refs| ensures HasRow(rows, from, refs[i]) {
      assert HasRow(rows, next, refs[1..][i - 1]);
      var n: nat :| next <= n && ReportedBy(rows, n, refs[1..][i - 1]);
      assert from <= n && ReportedBy(rows, n, refs[i]);
    }
  }

  ghost predicate AmongRepos(refs: seq<string>, repos: set<string>) {
    forall i :: 0 <= i < |refs| && ParseRef(refs[i]).Some? ==> ParseRef(refs[i]).value.repo in repos
  }

  /** In either mode and whatever goes wrong, a run is cut short exactly when one of its requests was answered with an
      oversized body; it leaves every tag page, every referrer and every record but manifests of other indexes and
      repositories alone; and if it is not cut short, no bad reference stops it: each reference has its own row, naming what
      was asked for. */
  lemma {:induction false} RunGoesOn(c: Context, repos: set<string>, s: State, refs: seq<string>)
    requires RefsEnd(c, s.model, refs) && AmongRepos(refs, repos)
    ensures GoesOn(c, repos, s, Refs(c, s, refs))
    ensures !Refs(c, s, refs).aborted ==> AllReported(Refs(c, s, refs).rows, |s.rows|, refs)
    decreases |refs|
  {
    if refs != [] && !s.aborted {
      var s' := RefStep(c, s, refs[0]);
      RefStepEnds(c, s, refs);
      RefStepGoesOn(c, repos, s, refs[0]);
      assert AmongRepos(refs[1..], repos) by { assert forall i :: 0 <= i < |refs[1..]| ==> refs[1..][i] == refs[i + 1]; }
      RunGoesOn(c, repos, s', refs[1..]);
      var final := Refs(c, s, refs);
      assert final == Refs(c, s', refs[1..]);
      GoesOnTwice(c, repos, s, s', final);
      if !final.aborted {
        ReportedStays(s'.rows, final.rows, |s.rows|, refs[0]);
        OneMoreReported(final.rows, |s.rows|, |s'.rows|, refs);
      }
    }
  }

  // ----- What one popped manifest is asked for -----

  /** The rows added answer for these digests one by one. */
  ghost predicate Tells(before: seq<Row>, after: seq<Row>, kind: Kind, repo: string, digests: seq<string>) {
    && before <= after && |after| == |before| + |digests|
    && forall i :: |before| <= i < |after| ==> IsAbout(after[i], kind, repo, digests[i - |before|])
  }

  ghost predicate IsAbout(row: Row, kind: Kind, repo: string, digest: string) {
    row.kind == kind && row.repo == repo && row.reference == digest
  }

  lemma TellsNext(before: seq<Row>, row: Row, after: seq<Row>, kind: Kind, repo: string, digests: seq<string>)
    requires digests != [] && IsAbout(row, kind, repo, digests[0]) && Tells(before + [row], after, kind, repo, digests[1..])
    ensures Tells(before, after, kind, repo, digests)
  {
    assert (before + [row])[|before|] == row && after[|before|] == row;
    assert before <= after by { assert before == (before + [row])[..|before|]; }
    forall i | |before| < i < |after| ensures IsAbout(after[i], kind, repo, digests[i - |before|]) {
      assert digests[i - |before|] == digests[1..][i - |before| - 1];
    }
  }

  lemma OneRow(c: Context, s: State, repo: string, reference: string, tag: Option<string>) returns (row: Row)
    requires !ManifestOf(c, s, repo, reference, tag).0.aborted
    ensures ManifestOf(c, s, repo, reference, tag).0.rows == s.rows + [row] && IsAbout(row, ManifestRow, repo, reference)
  {
    if c.mode == Verify { ReadExact(c, s, repo, reference, tag); } else { FetchExact(c, s, repo, reference, tag); }
    row := ManifestOf(c, s, repo, reference, tag).0.rows[|s.rows|];
  }

  lemma {:induction false} ChildrenReport(c: Context, s: State, repo: string, digests: seq<string>)
    requires !s.aborted && !Children(c, s, repo, digests).0.aborted
    ensures Tells(s.rows, Children(c, s, repo, digests).0.rows, ManifestRow, repo, digests)
    decreases |digests|
  {
    if digests != [] {
      var s1 := ManifestOf(c, s, repo, digests[0], None).0;
      ChildrenGoOn(c, {repo}, s1, repo, digests[1..]);
      var row := OneRow(c, s, repo, digests[0], None);
      ChildrenReport(c, s1, repo, digests[1..]);
      TellsNext(s.rows, row, Children(c, s, repo, digests).0.rows, ManifestRow, repo, digests);
    }
  }

  lemma {:induction false} BlobsReport(c: Context, s: State, repo: string, digests: seq<string>)
    ensures Tells(s.rows, Blobs(c, s, repo, digests).rows, BlobRow, repo, digests)
    decreases |digests|
  {
    if digests != [] {
      var s1 := Blob(c, s, repo, digests[0]);
      BlobExact(c, s, repo, digests[0]);
      BlobsReport(c, s1, repo, digests[1..]);
      TellsNext(s.rows, s1.rows[|s.rows|], Blobs(c, s, repo, digests).rows, BlobRow, repo, digests);
    }
  }

  /** A popped manifest is followed up completely, whatever is missing: one row for each child it names, then one for each
      blob, in order, unless an oversized body cuts the run short. */
  lemma TurnReports(c: Context, s: State, repo: string, b: string)
    requires !s.aborted && !Turn(c, s, repo, b).0.aborted
    ensures exists asked ::
      && Tells(s.rows, asked, ManifestRow, repo, c.world.describe(b).0)
      && Tells(asked, Turn(c, s, repo, b).0.rows, BlobRow, repo, c.world.describe(b).1)
  {
    var (children, blobs) := c.world.describe(b);
    var s1 := Children(c, s, repo, children).0;
    BlobsGoOn(c, {repo}, s1, repo, blobs);
    ChildrenReport(c, s, repo, children);
    BlobsReport(c, s1, repo, blobs);
    assert Tells(s.rows, s1.rows, ManifestRow, repo, children);
  }

  /** It puts on the stack as many manifests as children were handed back: all but those whose row is an error. */
  lemma {:induction false} ChildrenPush(c: Context, s: State, repo: string, digests: seq<string>)
    requires !s.aborted && !Children(c, s, repo, digests).0.aborted
    ensures var (s', pushed) := Children(c, s, repo, digests);
      |pushed| + CountStatus(s'.rows, Error) == |digests| + CountStatus(s.rows, Error)
    decreases |digests|
  {
    if digests != [] {
      var s1 := ManifestOf(c, s, repo, digests[0], None).0;
      ChildrenGoOn(c, {repo}, s1, repo, digests[1..]);
      RequestCounts(c, s, repo, digests[0], None);
      ChildrenPush(c, s1, repo, digests[1..]);
    }
  }

  lemma RequestCounts(c: Context, s: State, repo: string, reference: string, tag: Option<string>)
    requires !ManifestOf(c, s, repo, reference, tag).0.aborted
    ensures var (s', m) := ManifestOf(c, s, repo, reference, tag);
      CountStatus(s'.rows, Error) == CountStatus(s.rows, Error) + if m.Some? then 0 else 1
  {
    var (s', m) := ManifestOf(c, s, repo, reference, tag);
    if c.mode == Verify { ReadExact(c, s, repo, reference, tag); } else { FetchExact(c, s, repo, reference, tag); }
    assert s'.rows[..|s'.rows| - 1] == s.rows;
  }

  /** The rows with a status, by position. */
  ghost function Where(rows: seq<Row>, status: Status): set<int> { set i | 0 <= i < |rows| && rows[i].status == status }

  /** The closing row counts the synced rows. */
  lemma SummaryCounts(index: string, rows: seq<Row>)
    ensures Summary(index, rows).bytes == |Where(rows, Synced)|
    ensures Summary(index, rows).kind == SummaryRow && Summary(index, rows).repo == index
  {
    CountIsSize(rows, Synced);
  }

  lemma {:induction false} CountIsSize(rows: seq<Row>, status: Status)
    ensures CountStatus(rows, status) == |Where(rows, status)|
    decreases |rows|
  {
    if rows == [] {
      assert Where(rows, status) == {};
    } else {
      CountIsSize(rows[..|rows| - 1], status);
      WhereLast(rows, status);
    }
  }

  lemma WhereLast(rows: seq<Row>, status: Status)
    requires rows != []
    ensures var n := |rows| - 1;
      n !in Where(rows[..n], status) && Where(rows, status) == Where(rows[..n], status) + if rows[n].status == status then {n} else {}
  {
    var n := |rows| - 1;
    forall i | 0 <= i < n ensures rows[..n][i] == rows[i] {}
  }
}
