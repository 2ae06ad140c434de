/** What Verify says: it changes no store and is clean exactly when everything it can reach is present; how it follows a
    Sync, and the one way it can fail to end (crates/peryx-ecosystem-oci/src/mirror.rs). */
module MirrorVerify {
  import opened Common
  import opened OciKeys
  import opened OciModel
  import opened WorkStack
  import opened MirrorSpec
  import opened MirrorSync

  // ----- What Verify looks for -----

  ghost predicate AllStored(model: Model, digests: seq<string>) { forall d :: d in digests ==> Stored(model, d).Some? }

  /** The manifest's own needs: every child readable, every blob here. */
  ghost predicate Satisfied(w: World, model: Model, blobs: set<string>, b: string) {
    AllStored(model, w.describe(b).0) && BlobsHere(w, blobs, w.describe(b).1)
  }

  /** `b` is reached from `root` by reading the child digests of `path` out of the store. */
  ghost predicate ReadBy(describe: Describe, model: Model, root: string, path: seq<string>, b: string)
    decreases |path|
  {
    if path == [] then root == b
    else path[0] in describe(root).0 && Stored(model, path[0]).Some? && ReadBy(describe, model, Stored(model, path[0]).value.bytes, path[1..], b)
  }

  /** Everything that can be read from `b` on has what it needs. */
  ghost predicate Present(w: World, model: Model, blobs: set<string>, b: string) {
    forall path, x :: ReadBy(w.describe, model, b, path, x) ==> Satisfied(w, model, blobs, x)
  }

  lemma {:induction false} StoredBytesAre(model: Model, digests: seq<string>, x: string)
    ensures x in StoredBytes(model, digests) <==> exists d :: d in digests && Stored(model, d).Some? && Stored(model, d).value.bytes == x
    decreases |digests|
  {
    if digests != [] {
      StoredBytesAre(model, digests[1..], x);
      if d :| d in digests && Stored(model, d).Some? && Stored(model, d).value.bytes == x {
        assert d == digests[0] || d in digests[1..];
      }
      if x in StoredBytes(model, digests[1..]) {
        var d :| d in digests[1..] && Stored(model, d).Some? && Stored(model, d).value.bytes == x;
        assert d in digests;
      }
    }
  }

  lemma PresentUnfolds(w: World, model: Model, blobs: set<string>, b: string)
    ensures Present(w, model, blobs, b) <==>
      Satisfied(w, model, blobs, b) && forall x :: x in Below(w.describe, model)(b) ==> Present(w, model, blobs, x)
  {
    if Present(w, model, blobs, b) {
      assert ReadBy(w.describe, model, b, [], b);
      forall x | x in Below(w.describe, model)(b) ensures Present(w, model, blobs, x) { PresentBelow(w, model, blobs, b, x); }
    }
    if Satisfied(w, model, blobs, b) && forall x :: x in Below(w.describe, model)(b) ==> Present(w, model, blobs, x) {
      forall path, y | ReadBy(w.describe, model, b, path, y) ensures Satisfied(w, model, blobs, y) {
        if path != [] {
          var x := Stored(model, path[0]).value.bytes;
          StoredBytesAre(model, w.describe(b).0, x);
          assert Present(w, model, blobs, x) && ReadBy(w.describe, model, x, path[1..], y);
        }
      }
    }
  }

  lemma PresentBelow(w: World, model: Model, blobs: set<string>, b: string, x: string)
    requires Present(w, model, blobs, b) && x in Below(w.describe, model)(b)
    ensures Present(w, model, blobs, x)
  {
    StoredBytesAre(model, w.describe(b).0, x);
    var d :| d in w.describe(b).0 && Stored(model, d).Some? && Stored(model, d).value.bytes == x;
    forall path, y | ReadBy(w.describe, model, x, path, y) ensures Satisfied(w, model, blobs, y) {
      assert ([d] + path)[1..] == path;
      assert ReadBy(w.describe, model, b, [d] + path, y);
    }
  }

  /** No blob lookup with these numbers faults. */
  ghost predicate NoFaults(o: Outside, from: nat, until: nat) { forall n :: from <= n < until ==> !o.headFails(n) }

  /** From `s` to `s'` the report stays free of error rows exactly when `ok` holds and no lookup in between faults. */
  ghost predicate CleanIff(c: Context, s: State, s': State, ok: bool) {
    && s.lookups <= s'.lookups
    && (NoErrors(s'.rows) <==> NoErrors(s.rows) && ok && NoFaults(c.outside, s.lookups, s'.lookups))
  }

  // ----- Verify is exact -----

  lemma {:induction false} ChildrenVerify(c: Context, s: State, repo: string, digests: seq<string>)
    requires c.mode == Verify && !s.aborted
    ensures var s' := Children(c, s, repo, digests).0; NoErrors(s'.rows) <==> NoErrors(s.rows) && AllStored(s.model, digests)
    decreases |digests|
  {
    if digests != [] {
      var s1 := ManifestOf(c, s, repo, digests[0], None).0;
      ChildrenVerify(c, s1, repo, digests[1..]);
      AppendedRow(s.rows, s1.rows[|s.rows|]);
      assert AllStored(s.model, digests) <==> Stored(s.model, digests[0]).Some? && AllStored(s.model, digests[1..]) by {
        forall d | d in digests ensures d == digests[0] || d in digests[1..] {}
      }
    }
  }

  lemma {:induction false} BlobsVerify(c: Context, s: State, repo: string, digests: seq<string>)
    requires c.mode == Verify
    ensures CleanIff(c, s, Blobs(c, s, repo, digests), BlobsHere(c.world, s.blobs, digests))
    decreases |digests|
  {
    if digests != [] {
      var s1 := Blob(c, s, repo, digests[0]);
      BlobsVerify(c, s1, repo, digests[1..]);
      AppendedRow(s.rows, s1.rows[|s.rows|]);
      assert forall d :: d in digests <==> d == digests[0] || d in digests[1..];
    }
  }

  lemma TurnVerify(c: Context, s: State, repo: string, b: string)
    requires c.mode == Verify && !s.aborted
    ensures CleanIff(c, s, Turn(c, s, repo, b).0, Satisfied(c.world, s.model, s.blobs, b))
  {
    var (children, blobs) := c.world.describe(b);
    ChildrenRead(c, s, repo, children);
    ChildrenVerify(c, s, repo, children);
    BlobsVerify(c, Children(c, s, repo, children).0, repo, blobs);
  }

  ghost predicate AllPresent(w: World, model: Model, blobs: set<string>, pending: seq<string>) {
    forall b :: b in pending ==> Present(w, model, blobs, b)
  }

  lemma AllPresentTurned(w: World, model: Model, blobs: set<string>, pending: seq<string>)
    requires pending != []
    ensures AllPresent(w, model, blobs, pending) <==>
      Satisfied(w, model, blobs, pending[|pending| - 1]) && AllPresent(w, model, blobs, Turned(Below(w.describe, model), pending))
  {
    var last := |pending| - 1;
    var front, b, pushed := pending[..last], pending[last], Below(w.describe, model)(pending[last]);
    PresentUnfolds(w, model, blobs, b);
    assert forall x :: x in pending <==> x == b || x in front;
    assert forall x :: x in front + pushed <==> x in front || x in pushed;
  }

  /** Verify changes no store and stays clean exactly when everything below its stack is present and no lookup faults. */
  lemma {:induction false} WalkVerify(c: Context, s: State, repo: string, pending: seq<string>)
    requires c.mode == Verify && !s.aborted && WalkEnds(c, s, pending)
    ensures SameStores(s, Walk(c, s, repo, pending))
    ensures CleanIff(c, s, Walk(c, s, repo, pending), AllPresent(c.world, s.model, s.blobs, pending))
    decreases Remaining(c, s, pending)
  {
    if pending != [] {
      var last := |pending| - 1;
      var s' := Turn(c, s, repo, pending[last]).0;
      PendingShrinks(c, s, repo, pending);
      TurnReads(c, s, repo, pending[last]);
      TurnVerify(c, s, repo, pending[last]);
      var rest := Turned(Below(c.world.describe, s.model), pending);
      WalkVerify(c, s', repo, rest);
      AllPresentTurned(c.world, s.model, s.blobs, pending);
    }
  }

  /** The reference resolves in the store and everything below it is present. */
  ghost predicate Resolves(c: Context, model: Model, blobs: set<string>, raw: string) {
    ParseRef(raw).Some? && ResolvesImage(c, model, blobs, ParseRef(raw).value)
  }

  ghost predicate ResolvesImage(c: Context, model: Model, blobs: set<string>, image: ImageRef) {
    Root(c.index, model, image).Some? && Present(c.world, model, blobs, Root(c.index, model, image).value)
  }

  lemma OneRefVerify(c: Context, s: State, image: ImageRef)
    requires c.mode == Verify && !s.aborted && ImageEnds(c, s.model, image)
    ensures SameStores(s, OneRef(c, s, image))
    ensures CleanIff(c, s, OneRef(c, s, image), ResolvesImage(c, s.model, s.blobs, image))
  {
    var (s', m) := ManifestOf(c, s, image.repo, image.reference, TagOf(image));
    AppendedRow(s.rows, s'.rows[|s.rows|]);
    if m.Some? {
      var pending := [m.value.bytes];
      WalkVerify(c, s', image.repo, pending);
      assert m.value.bytes in pending;
      assert OneRef(c, s, image) == Walk(c, s', image.repo, pending);
    }
  }

  lemma RefStepVerify(c: Context, s: State, raw: string)
    requires c.mode == Verify && !s.aborted && RefEnds(c, s.model, raw)
    ensures SameStores(s, RefStep(c, s, raw))
    ensures CleanIff(c, s, RefStep(c, s, raw), Resolves(c, s.model, s.blobs, raw))
  {
    var parsed := ParseRef(raw);
    if parsed.None? {
      AppendedRow(s.rows, Row(ManifestRow, raw, "", "", Error, 0));
    } else {
      OneRefVerify(c, s, parsed.value);
    }
  }

  ghost predicate AllResolve(c: Context, model: Model, blobs: set<string>, refs: seq<string>) {
    forall r :: r in refs ==> Resolves(c, model, blobs, r)
  }

  /** A Verify run changes nothing, and reports no error row exactly when every reference resolves, its whole reachable
      set of manifests and blobs is present under supported digests, and no lookup the run made faulted. */
  lemma {:induction false} VerifyIsExact(c: Context, s: State, refs: seq<string>)
    requires c.mode == Verify && !s.aborted && RefsEnd(c, s.model, refs)
    ensures SameStores(s, Refs(c, s, refs))
    ensures CleanIff(c, s, Refs(c, s, refs), AllResolve(c, s.model, s.blobs, refs))
    decreases |refs|
  {
    if refs != [] {
      RefStepEnds(c, s, refs);
      RefStepVerify(c, s, refs[0]);
      VerifyIsExact(c, RefStep(c, s, refs[0]), refs[1..]);
      assert forall r :: r in refs <==> r == refs[0] || r in refs[1..];
    }
  }

  // ----- When Verify ends -----

  /** Everything the store reads back is filed under its own digest. */
  ghost predicate ContentAddressed(w: World, model: Model) {
    forall d :: Stored(model, d).Some? ==> IsContent(w, d, Stored(model, d).value.bytes)
  }

  /** Over a store whose records read back as their own content, the walk ends from anywhere. */
  lemma {:induction false} AddressedEnds(w: World, model: Model, b: string)
    requires Sound(w) && ContentAddressed(w, model)
    ensures Ends(Below(w.describe, model), [b])
    decreases w.rank(b)
  {
    var next := Below(w.describe, model);
    forall x | x in next(b) ensures Ends(next, [x]) {
      StoredBytesAre(model, w.describe(b).0, x);
      AddressedEnds(w, model, x);
    }
    EachEnds(next, next(b));
    BelowEnds(next, b);
  }

  lemma AddressedRefsEnd(c: Context, model: Model, refs: seq<string>)
    requires Sound(c.world) && ContentAddressed(c.world, model)
    ensures RefsEnd(c, model, refs)
  {
    forall i | 0 <= i < |refs| ensures RefEnds(c, model, refs[i]) {
      if ParseRef(refs[i]).Some? && Root(c.index, model, ParseRef(refs[i]).value).Some? {
        AddressedEnds(c.world, model, Root(c.index, model, ParseRef(refs[i]).value).value);
      }
    }
  }

  /** A Verify walk ends exactly when its stack holds no manifest out of which the store keeps reading another of the same
      kind forever. */
  lemma VerifyEndsIff(c: Context, s: State, pending: seq<string>)
    requires c.mode == Verify
    ensures WalkEnds(c, s, pending) <==> !Trapped(Below(c.world.describe, s.model), pending)
  {
    EndsIffNotTrapped(Below(c.world.describe, s.model), pending);
  }

  /** No manifest that can be read from `b` on reads back to itself. */
  ghost predicate Acyclic(describe: Describe, model: Model, b: string) {
    forall path, x :: ReadBy(describe, model, b, path, x) ==> !OnCycle(describe, model, x)
  }

  ghost predicate OnCycle(describe: Describe, model: Model, x: string) {
    exists loop :: loop != [] && ReadBy(describe, model, x, loop, x)
  }

  ghost predicate ReadsTo(describe: Describe, model: Model, y: string, x: string) { exists path :: ReadBy(describe, model, y, path, x) }

  /** The texts the store can read back; there are finitely many. */
  ghost function Texts(model: Model): set<string> {
    set k | k in model && k.ManifestKey? && Stored(model, k.digest).Some? :: Stored(model, k.digest).value.bytes
  }

  lemma {:induction false} ReadIsText(describe: Describe, model: Model, b: string, path: seq<string>, x: string)
    requires path != [] && ReadBy(describe, model, b, path, x)
    ensures x in Texts(model)
    decreases |path|
  {
    var first := Stored(model, path[0]).value.bytes;
    assert ManifestKey(path[0]) in model;
    if path[1..] == [] { assert first == x; } else { ReadIsText(describe, model, first, path[1..], x); }
  }

  /** What popping pushes is what one digest reads. */
  lemma BelowIsRead(describe: Describe, model: Model, b: string, x: string) returns (d: string)
    requires x in Below(describe, model)(b)
    ensures ReadBy(describe, model, b, [d], x)
    ensures forall path, y :: ReadBy(describe, model, x, path, y) ==> ReadBy(describe, model, b, [d] + path, y)
  {
    StoredBytesAre(model, describe(b).0, x);
    d :| d in describe(b).0 && Stored(model, d).Some? && Stored(model, d).value.bytes == x;
    assert [d][1..] == [];
    forall path, y | ReadBy(describe, model, x, path, y) ensures ReadBy(describe, model, b, [d] + path, y) {
      assert ([d] + path)[1..] == path;
    }
  }

  /** Every descendant of an acyclic manifest has fewer texts below it, so the walk from it ends. */
  lemma {:induction false} AcyclicEnds(describe: Describe, model: Model, b: string, below: set<string>)
    requires Acyclic(describe, model, b)
    requires forall path, x :: path != [] && ReadBy(describe, model, b, path, x) ==> x in below
    ensures Ends(Below(describe, model), [b])
    decreases below
  {
    var next := Below(describe, model);
    forall x | x in next(b) ensures Ends(next, [x]) {
      var d := BelowIsRead(describe, model, b, x);
      assert x in below;
      assert !OnCycle(describe, model, x);
      assert Acyclic(describe, model, x) by {
        forall path, y | ReadBy(describe, model, x, path, y) ensures !OnCycle(describe, model, y) {
          assert ReadBy(describe, model, b, [d] + path, y);
        }
      }
      forall path, y | path != [] && ReadBy(describe, model, x, path, y) ensures y in below - {x} {
        assert ReadBy(describe, model, b, [d] + path, y);
      }
      AcyclicEnds(describe, model, x, below - {x});
    }
    EachEnds(next, next(b));
    BelowEnds(next, b);
  }

  /** All that can read its way to a manifest on a cycle is a trap. */
  lemma CycleIsATrap(describe: Describe, model: Model, x: string, trap: iset<string>)
    requires OnCycle(describe, model, x)
    requires forall y :: y in trap <==> ReadsTo(describe, model, y, x)
    ensures Trap(Below(describe, model), trap)
  {
    var next := Below(describe, model);
    var loop :| loop != [] && ReadBy(describe, model, x, loop, x);
    forall y | y in trap ensures PushesInto(next, y, trap) {
      var path :| ReadBy(describe, model, y, path, x);
      var steps := if path == [] then loop else path;
      assert ReadBy(describe, model, y, steps, x);
      var z := Stored(model, steps[0]).value.bytes;
      StoredBytesAre(model, describe(y).0, z);
      assert ReadBy(describe, model, z, steps[1..], x);
    }
  }

  /** What an operator can check: a walk over the store ends exactly when no manifest that can be read from its stack on
      reads back to itself. */
  lemma VerifyEndsIffAcyclic(c: Context, s: State, pending: seq<string>)
    requires c.mode == Verify
    ensures WalkEnds(c, s, pending) <==> forall b :: b in pending ==> Acyclic(c.world.describe, s.model, b)
  {
    var describe, model := c.world.describe, s.model;
    var next := Below(describe, model);
    if forall b :: b in pending ==> Acyclic(describe, model, b) {
      forall b | b in pending ensures Ends(next, [b]) {
        forall path, x | path != [] && ReadBy(describe, model, b, path, x) ensures x in Texts(model) { ReadIsText(describe, model, b, path, x); }
        AcyclicEnds(describe, model, b, Texts(model));
      }
      EachEnds(next, pending);
    } else {
      var b :| b in pending && !Acyclic(describe, model, b);
      var path, x :| ReadBy(describe, model, b, path, x) && OnCycle(describe, model, x);
      var trap := iset y | ReadsTo(describe, model, y, x);
      CycleIsATrap(describe, model, x, trap);
      assert Holds(pending, trap);
      EndsIffNotTrapped(next, pending);
    }
  }

  /** The same for a whole run: a Verify ends exactly when no reference resolves to a manifest with a cycle below it. */
  lemma VerifyRunEndsIff(c: Context, model: Model, refs: seq<string>)
    requires c.mode == Verify
    ensures RefsEnd(c, model, refs) <==> forall i :: 0 <= i < |refs| ==> RootAcyclic(c, model, refs[i])
  {
    var s := State(model, {}, [], 0, 0, false);
    forall i | 0 <= i < |refs| ensures RefEnds(c, model, refs[i]) <==> RootAcyclic(c, model, refs[i]) {
      if ParseRef(refs[i]).Some? && Root(c.index, model, ParseRef(refs[i]).value).Some? {
        var root := Root(c.index, model, ParseRef(refs[i]).value).value;
        VerifyEndsIffAcyclic(c, s, [root]);
        assert root in [root] && forall b :: b in [root] ==> b == root;
      }
    }
  }

  ghost predicate RootAcyclic(c: Context, model: Model, raw: string) {
    ParseRef(raw).Some? && Root(c.index, model, ParseRef(raw).value).Some? ==>
      Acyclic(c.world.describe, model, Root(c.index, model, ParseRef(raw).value).value)
  }

  /** The failing run. The upstream answers a tag with a body that names nothing and a media type longer than the length
      prefix, whose rest in front of the body reads as a manifest that names the body. The Sync is clean; the record then
      reads back as that other manifest, and a Verify of the same tag walks from it to itself without end. */
  lemma OverlongVerifyNeverEnds(c: Context, v: Context, s: State, repo: string, tag: string, head: string, tail: string, body: string)
    requires Sound(c.world) && c.mode == Sync && !s.aborted && v == c.(mode := Verify)
    requires |head| == MAX_U16 && ValidUtf8(head) && ValidUtf8(head + tail)
    requires c.outside.manifest(s.fetches) == Body(Some(head + tail), body)
    requires c.world.describe(body) == ([], []) && c.world.describe(tail + body) == ([c.world.digestOf(body)], [])
    ensures var image := ImageRef(repo, tag, false); var synced := OneRef(c, s, image);
      && !synced.aborted && (NoErrors(s.rows) ==> NoErrors(synced.rows))
      && Root(v.index, synced.model, image) == Some(tail + body)
      && Turn(v, synced, repo, tail + body).1 == [tail + body]
      && !ImageEnds(v, synced.model, image)
      && forall n: nat :: !EndsIn(Below(v.world.describe, synced.model), [tail + body], n)
  {
    var image := ImageRef(repo, tag, false);
    var synced := OverlongSync(c, s, repo, tag, head, tail, body);
    var digest := c.world.digestOf(body);
    var next := Below(v.world.describe, synced.model);
    StoredBytesOne(synced.model, digest);
    TurnReads(v, synced, repo, tail + body);
    assert next(tail + body) == [tail + body];
    var trap := iset{tail + body};
    assert Trap(next, trap) by { assert (tail + body) in next(tail + body); }
    assert Holds([tail + body], trap) by { assert (tail + body) in [tail + body]; }
    forall n: nat ensures !EndsIn(next, [tail + body], n) { TrapNeverEnds(next, [tail + body], trap, n); }
  }

  /** Such a run exists: the digest of a text spells its characters in unary, and the media type is one byte too long. */
  lemma OverlongRunExists() returns (c: Context, s: State, head: string, tail: string, body: string)
    ensures Sound(c.world) && c.mode == Sync && !s.aborted && s.rows == []
    ensures |head| == MAX_U16 && ValidUtf8(head) && ValidUtf8(head + tail)
    ensures c.outside.manifest(s.fetches) == Body(Some(head + tail), body)
    ensures c.world.describe(body) == ([], []) && c.world.describe(tail + body) == ([c.world.digestOf(body)], [])
  {
    head, tail, body := seq(MAX_U16, _ => 'a'), "b", "c";
    AsciiIsText(head);
    AsciiIsText(head + tail);
    var looped, media: Text, digest := tail + body, head + tail, Unary(body);
    var describe: Describe := b => if b == looped then ([digest], []) else ([], []);
    var world := World(describe, b => Unary(b), d => Unread(d), _ => None, b => if b == looped then 1 else 0);
    var outside := Outside(_ => Body(Some(media), "c"), _ => 0, _ => false, _ => None);
    forall b ensures world.content(world.digestOf(b)) == Some(b) && ValidUtf8(world.digestOf(b)) { UnreadUnary(b); }
    forall b, d | world.digestOf(d) in world.describe(b).0 ensures world.rank(d) < world.rank(b) { UnaryInjective(d, body); }
    c, s := Context(world, outside, "i", Sync), State(map[], {}, [], 0, 0, false);
  }

  ghost function Unary(b: string): string {
    if b == "" then "" else seq(b[0] as int, _ => 'a') + "b" + Unary(b[1..])
  }

  ghost function Unread(d: string): Option<string> {
    if b :| Unary(b) == d then Some(b) else None
  }

  lemma {:induction false} UnaryInjective(a: string, b: string)
    requires Unary(a) == Unary(b)
    ensures a == b
    decreases |a|
  {
    if a != "" && b != "" {
      var m, n := a[0] as int, b[0] as int;
      assert Unary(a)[m] == 'b' && Unary(b)[n] == 'b';
      assert m == n;
      assert Unary(a[1..]) == Unary(a)[m + 1..] && Unary(b[1..]) == Unary(b)[n + 1..];
      UnaryInjective(a[1..], b[1..]);
    }
  }

  lemma {:induction false} UnaryIsAscii(b: string)
    ensures forall i :: 0 <= i < |Unary(b)| ==> Unary(b)[i] < '~'
    decreases |b|
  {
    if b != "" { UnaryIsAscii(b[1..]); }
  }

  lemma UnreadUnary(b: string)
    ensures Unread(Unary(b)) == Some(b) && ValidUtf8(Unary(b))
  {
    UnaryIsAscii(b);
    AsciiIsText(Unary(b));
    UnaryInjective(Unread(Unary(b)).value, b);
  }

  lemma StoredBytesOne(model: Model, digest: string)
    requires Stored(model, digest).Some?
    ensures StoredBytes(model, [digest]) == [Stored(model, digest).value.bytes]
  {
    assert [digest][1..] == [];
  }

  lemma OverlongSync(c: Context, s: State, repo: string, tag: string, head: string, tail: string, body: string) returns (synced: State)
    requires Sound(c.world) && c.mode == Sync && !s.aborted
    requires |head| == MAX_U16 && ValidUtf8(head) && ValidUtf8(head + tail)
    requires c.outside.manifest(s.fetches) == Body(Some(head + tail), body)
    requires c.world.describe(body) == ([], [])
    ensures synced == OneRef(c, s, ImageRef(repo, tag, false)) && !synced.aborted
    ensures synced.rows == s.rows + [Row(ManifestRow, repo, tag, c.world.digestOf(body), Synced, |body|)]
    ensures Target(synced.model, c.index, repo, tag) == Some(c.world.digestOf(body))
    ensures Stored(synced.model, c.world.digestOf(body)) == Some(Manifest(head, tail + body))
  {
    var m := Manifest(head + tail, body);
    var (s', got) := ManifestOf(c, s, repo, tag, Some(tag));
    assert got == Some(m);
    AdmittedLookup(c, s, repo, Some(tag), m, c.world.digestOf(body));
    AdmittedTag(c, s, repo, Some(tag), m);
    OverlongReadsBack(head, tail, body);
    synced := OneRef(c, s, ImageRef(repo, tag, false));
    LeafWalk(c, s', repo, body);
  }

  /** A manifest that names nothing is one turn that changes nothing. */
  lemma LeafWalk(c: Context, s: State, repo: string, b: string)
    requires Sound(c.world) && c.mode == Sync && c.world.describe(b) == ([], [])
    ensures Walk(c, s, repo, [b]) == s
  {
    assert Turn(c, s, repo, b) == (s, []);
    if !s.aborted {
      PendingShrinks(c, s, repo, [b]);
      assert [b][..0] + [] == [];
    }
  }

  // ----- Sync, then Verify -----

  /** Everything reachable from `b` is held, and every blob it names is here. */
  ghost predicate Whole(c: Context, s: State, repo: string, b: string)
    requires Sound(c.world)
    decreases c.world.rank(b)
  {
    && Held(c, s, repo, b) && BlobsHere(c.world, s.blobs, c.world.describe(b).1)
    && forall d :: d in c.world.describe(b).0 ==> exists x :: IsContent(c.world, d, x) && Whole(c, s, repo, x)
  }

  /** Everything below `b` came last with a media type that fits. */
  ghost predicate ShortBelow(c: Context, from: nat, until: nat, b: string) {
    forall path, x :: ReachedBy(c.world, b, path, x) ==> Short(c, from, until, x)
  }

  lemma {:induction false} CompleteIsWhole(c: Context, from: nat, start: Model, s: State, repo: string, b: string)
    requires Running(c, from, start, s) && Complete(c, from, s, repo, b) && ShortBelow(c, from, s.fetches, b)
    ensures Whole(c, s, repo, b)
    decreases c.world.rank(b)
  {
    var n := ArrivedIsWritten(c, from, start, s, repo, b);
    assert ReachedBy(c.world, b, [], b);
    forall d | d in c.world.describe(b).0 ensures exists x :: IsContent(c.world, d, x) && Whole(c, s, repo, x) {
      var x :| IsContent(c.world, d, x) && Complete(c, from, s, repo, x);
      ShortBelowChild(c, from, s.fetches, b, d, x);
      CompleteIsWhole(c, from, start, s, repo, x);
    }
  }

  lemma ShortBelowChild(c: Context, from: nat, until: nat, b: string, d: string, x: string)
    requires ShortBelow(c, from, until, b) && d in c.world.describe(b).0 && IsContent(c.world, d, x)
    ensures ShortBelow(c, from, until, x)
  {
    forall path, y | ReachedBy(c.world, x, path, y) ensures Short(c, from, until, y) {
      assert ([d] + path)[1..] == path;
      assert ReachedBy(c.world, b, [d] + path, y);
    }
  }

  /** What the store reads back below a whole graph is whole again, so it is present and the walk over it ends. */
  lemma {:induction false} WholeVerifies(c: Context, s: State, repo: string, b: string)
    requires Sound(c.world) && Whole(c, s, repo, b)
    ensures Present(c.world, s.model, s.blobs, b) && Ends(Below(c.world.describe, s.model), [b])
    decreases c.world.rank(b)
  {
    var next := Below(c.world.describe, s.model);
    forall d | d in c.world.describe(b).0 ensures Stored(s.model, d).Some? && Whole(c, s, repo, Stored(s.model, d).value.bytes) {
      var x :| IsContent(c.world, d, x) && Whole(c, s, repo, x);
    }
    forall x | x in next(b) ensures Present(c.world, s.model, s.blobs, x) && Ends(next, [x]) {
      StoredBytesAre(s.model, c.world.describe(b).0, x);
      var d :| d in c.world.describe(b).0 && Stored(s.model, d).Some? && Stored(s.model, d).value.bytes == x;
      assert c.world.digestOf(x) == d by { var y :| IsContent(c.world, d, y) && Whole(c, s, repo, y); }
      WholeVerifies(c, s, repo, x);
    }
    PresentUnfolds(c.world, s.model, s.blobs, b);
    EachEnds(next, next(b));
    BelowEnds(next, b);
  }

  /** An error-free Sync whose latest answers carried media types that fit, followed by a Verify of the same references:
      the Verify ends, and it is error-free unless a lookup of its own faults. */
  lemma SyncThenVerify(c: Context, v: Context, s: State, t: State, refs: seq<string>)
    requires Sound(c.world) && c.mode == Sync && !s.aborted
    requires v.world == c.world && v.index == c.index && v.mode == Verify
    requires !Refs(c, s, refs).aborted && NoErrors(Refs(c, s, refs).rows)
    requires forall repo, b :: Needed(c, Refs(c, s, refs), refs, repo, b) ==> Short(c, s.fetches, Refs(c, s, refs).fetches, b)
    requires t.model == Refs(c, s, refs).model && t.blobs == Refs(c, s, refs).blobs && t.rows == [] && !t.aborted
    ensures RefsEnd(v, t.model, refs)
    ensures NoErrors(Refs(v, t, refs).rows) <==> NoFaults(v.outside, t.lookups, Refs(v, t, refs).lookups)
  {
    var synced := Refs(c, s, refs);
    StartIsRunning(c, s);
    SyncIsComplete(c, s.fetches, s.model, s, refs);
    forall r | r in refs ensures RefEnds(v, t.model, r) && Resolves(v, t.model, t.blobs, r) {
      assert Mirrored(c, s.fetches, synced, r);
      MirroredVerifies(c, v, s.fetches, s.model, synced, refs, r);
    }
    assert RefsEnd(v, t.model, refs);
    VerifyIsExact(v, t, refs);
  }

  lemma MirroredVerifies(c: Context, v: Context, from: nat, start: Model, s: State, refs: seq<string>, raw: string)
    requires Running(c, from, start, s) && raw in refs && Mirrored(c, from, s, raw)
    requires v.world == c.world && v.index == c.index && v.mode == Verify
    requires forall repo, b :: Needed(c, s, refs, repo, b) ==> Short(c, from, s.fetches, b)
    ensures RefEnds(v, s.model, raw) && Resolves(v, s.model, s.blobs, raw)
  {
    var image := ParseRef(raw).value;
    var root :| Complete(c, from, s, image.repo, root) && RefersTo(c, s, image, c.world.digestOf(root));
    forall path, x | ReachedBy(c.world, root, path, x) ensures Short(c, from, s.fetches, x) {
      assert NeededBy(c, s, refs, image.repo, raw, root, path, x);
      assert Needed(c, s, refs, image.repo, x);
    }
    CompleteIsWhole(c, from, start, s, image.repo, root);
    WholeVerifies(c, s, image.repo, root);
    assert Root(v.index, s.model, image) == Some(root);
  }
}
