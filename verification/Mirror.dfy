/** The mirror run as it executes: a work stack, an append-only report and two stores it writes
    (crates/peryx-ecosystem-oci/src/mirror.rs). */
module Mirror {
  import opened Common
  import opened OciKeys
  import opened OciModel
  import opened MirrorSpec

  class Run {
    const c: Context
    var model: Model
    var blobs: set<string>
    var rows: seq<Row>
    var fetches: nat
    var lookups: nat
    var aborted: bool

    function View(): State
      reads this
    {
      State(model, blobs, rows, fetches, lookups, aborted)
    }

    constructor (c: Context, model: Model, blobs: set<string>)
      ensures this.c == c && View() == State(model, blobs, [], 0, 0, false)
    {
      this.c, this.model, this.blobs, this.rows, this.fetches, this.lookups, this.aborted := c, model, blobs, [], 0, 0, false;
    }

    /** Fetch or read one manifest, recording its row, and hand back its bytes for walking. */
    method FetchManifest(repo: string, reference: string, tag: Option<string>) returns (m: Option<Manifest>)
      modifies this
      ensures (View(), m) == ManifestOf(c, old(View()), repo, reference, tag)
    {
      if c.mode == Verify {
        m := ReadManifest(repo, reference, tag);
        return;
      }
      var answer := c.outside.manifest(fetches);
      var now := c.outside.now(fetches);
      fetches := fetches + 1;
      match answer
      case Unreachable =>
        rows := rows + [Row(ManifestRow, repo, reference, "", Error, 0)];
        m := None;
      case Oversized =>
        aborted := true;
        m := None;
      case Body(_, bytes) =>
        var digest := c.world.digestOf(bytes);
        if tag.None? && reference != digest {
          rows := rows + [Row(ManifestRow, repo, reference, "", Error, 0)];
          return None;
        }
        var manifest := Manifest(MediaType(answer), bytes);
        model := Recorded(model, c.world.describe, c.index, repo, digest, manifest);
        if tag.Some? {
          model := model[TagKey(c.index, repo, tag.value) := digest];
          model := model[FreshKey(c.index, repo, tag.value) := EncodeFresh(now, digest)];
        }
        rows := rows + [Row(ManifestRow, repo, reference, digest, Synced, |bytes|)];
        m := Some(manifest);
    }

    method ReadManifest(repo: string, reference: string, tag: Option<string>) returns (m: Option<Manifest>)
      modifies this`rows
      ensures (View(), m) == VerifyManifest(c, old(View()), repo, reference, tag)
    {
      var digest := Some(reference);
      if tag.Some? {
        digest := Target(model, c.index, repo, tag.value);
        if digest.None? {
          rows := rows + [Row(ManifestRow, repo, reference, "", Error, 0)];
          return None;
        }
      }
      m := Stored(model, digest.value);
      rows := rows + [Row(ManifestRow, repo, reference, digest.value, if m.None? then Error else Cached, 0)];
    }

    /** Sync or verify one blob by digest. */
    method FetchBlob(repo: string, digest: string)
      modifies this
      ensures View() == Blob(c, old(View()), repo, digest)
    {
      var at := c.world.storage(digest);
      if at.None? {
        rows := rows + [Row(BlobRow, repo, digest, digest, Error, 0)];
        return;
      }
      var fault, arrives := c.outside.headFails(lookups), c.outside.blobArrives(lookups);
      lookups := lookups + 1;
      if fault {
        rows := rows + [Row(BlobRow, repo, digest, digest, Error, 0)];
      } else if at.value in blobs {
        rows := rows + [Row(BlobRow, repo, digest, digest, Cached, 0)];
      } else if c.mode == Verify || arrives.None? {
        rows := rows + [Row(BlobRow, repo, digest, digest, Error, 0)];
      } else {
        blobs := blobs + {at.value};
        rows := rows + [Row(BlobRow, repo, digest, digest, Synced, arrives.value)];
      }
    }

    /** Request the children of one popped manifest and collect the bytes that arrive. */
    method FetchChildren(repo: string, children: seq<string>) returns (pushed: seq<string>)
      modifies this
      ensures (View(), pushed) == Children(c, old(View()), repo, children)
    {
      pushed := [];
      var n := 0;
      ghost var all := Children(c, View(), repo, children);
      assert children[0..] == children;
      while n < |children| && !aborted
        invariant 0 <= n <= |children|
        invariant Children(c, View(), repo, children[n..]).0 == all.0
        invariant pushed + Children(c, View(), repo, children[n..]).1 == all.1
      {
        var m := FetchManifest(repo, children[n], None);
        ghost var rest := Children(c, View(), repo, children[n + 1..]).1;
        if m.Some? {
          assert pushed + ([m.value.bytes] + rest) == pushed + [m.value.bytes] + rest;
          pushed := pushed + [m.value.bytes];
        } else {
          assert pushed + ([] + rest) == pushed + rest;
        }
        n := n + 1;
      }
      assert pushed + [] == pushed;
    }

    method FetchBlobs(repo: string, digests: seq<string>)
      modifies this
      ensures View() == Blobs(c, old(View()), repo, digests)
    {
      assert digests[0..] == digests;
      for n := 0 to |digests|
        invariant Blobs(c, View(), repo, digests[n..]) == Blobs(c, old(View()), repo, digests)
      {
        assert digests[n..][0] == digests[n] && digests[n..][1..] == digests[n + 1..];
        FetchBlob(repo, digests[n]);
      }
    }

    /** Follow a manifest to everything it needs over a work stack. In Verify the walk ends only if the store's own graph
        lets it. */
    method WalkManifest(repo: string, bytes: string)
      requires WalkEnds(c, View(), [bytes])
      modifies this
      ensures View() == Walk(c, old(View()), repo, [bytes])
    {
      var pending := [bytes];
      ghost var target := Walk(c, View(), repo, pending);
      while pending != [] && !aborted
        invariant WalkEnds(c, View(), pending) && Walk(c, View(), repo, pending) == target
        decreases Remaining(c, View(), pending)
      {
        PendingShrinks(c, View(), repo, pending);
        var last := |pending| - 1;
        var popped := pending[last];
        pending := pending[..last];
        var (children, blobs) := c.world.describe(popped);
        var pushed := FetchChildren(repo, children);
        if !aborted { FetchBlobs(repo, blobs); }
        pending := pending + pushed;
      }
    }

    method MirrorOne(raw: string)
      requires RefEnds(c, model, raw) && !aborted
      modifies this
      ensures View() == RefStep(c, old(View()), raw)
    {
      match ParseRef(raw)
      case None => rows := rows + [Row(ManifestRow, raw, "", "", Error, 0)];
      case Some(image) =>
        var m := FetchManifest(image.repo, image.reference, TagOf(image));
        if m.Some? && !aborted { WalkManifest(image.repo, m.value.bytes); }
    }

    /** The whole run: every reference, then the summary row. Without a cached upstream the report is one error row.
        A fault leaves the run unfinished and yields no report. */
    method MirrorAll(refs: seq<string>, hasUpstream: bool) returns (report: Option<seq<Row>>)
      requires RefsEnd(c, model, refs) && !aborted && rows == []
      modifies this
      ensures !hasUpstream ==> report == Some([Row(SummaryRow, c.index, "", "", Error, 0)]) && model == old(model) && blobs == old(blobs)
      ensures hasUpstream ==> (var s := Refs(c, old(View()), refs);
        && model == s.model && blobs == s.blobs
        && report == (if s.aborted then None else Some(s.rows + [Summary(c.index, s.rows)])))
    {
      if !hasUpstream {
        rows := [Row(SummaryRow, c.index, "", "", Error, 0)];
        return Some(rows);
      }
      var n := 0;
      assert refs[0..] == refs;
      while n < |refs| && !aborted
        invariant 0 <= n <= |refs| && RefsEnd(c, model, refs[n..])
        invariant Refs(c, View(), refs[n..]) == Refs(c, old(View()), refs)
      {
        assert refs[n..][0] == refs[n] && refs[n..][1..] == refs[n + 1..];
        RefStepEnds(c, View(), refs[n..]);
        MirrorOne(refs[n]);
        n := n + 1;
      }
      if aborted { return None; }
      rows := rows + [Summary(c.index, rows)];
      report := Some(rows);
    }
  }
}
