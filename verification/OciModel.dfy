/** The OCI driver's records as separate maps: what recording, pruning and deletion keep
    (crates/peryx-ecosystem-oci/src/store.rs). */
module OciModel {
  import opened Common
  import opened OciKeys

  /** The abstract store: one value per record. */
  type Model = map<Key, string>

  /** The child-manifest and blob digests that manifest bytes name. */
  type Describe = string -> (seq<string>, seq<string>)

  // ----- The abstract operations -----

  function Lookup(model: Model, k: Key): Option<string> {
    if k in model then Some(model[k]) else None
  }

  /** A manifest the store can read back. */
  function Stored(model: Model, digest: string): Option<Manifest> {
    if ManifestKey(digest) in model then DecodeManifest(model[ManifestKey(digest)]) else None
  }

  /** A tag's target; a value that is not text resolves to nothing. */
  function Target(model: Model, index: string, repo: string, tag: string): Option<string> {
    if TagKey(index, repo, tag) in model && ValidUtf8(model[TagKey(index, repo, tag)])
    then Some(model[TagKey(index, repo, tag)]) else None
  }

  predicate IsMember(model: Model, index: string, repo: string, digest: string) {
    MemberKey(index, repo, digest) in model
  }

  predicate IsBlobMember(model: Model, index: string, repo: string, digest: string) {
    BlobMemberKey(index, repo, digest) in model
  }

  function MemberKeys(index: string, repo: string, digests: seq<string>): set<Key> {
    set d | d in digests :: MemberKey(index, repo, d)
  }

  function BlobMemberKeys(index: string, repo: string, digests: seq<string>): set<Key> {
    set d | d in digests :: BlobMemberKey(index, repo, d)
  }

  /** Every key of `keys` marked; the value is empty, since a key's presence is the record. */
  function Marked(model: Model, keys: set<Key>): Model {
    model + map k | k in keys :: ""
  }

  /** Store a manifest and record it, its children and its blobs as ones this repository serves. */
  function Recorded(model: Model, describe: Describe, index: string, repo: string, digest: string, m: Manifest): Model {
    var (children, blobs) := describe(m.bytes);
    var stored := model[ManifestKey(digest) := EncodeManifest(m)][MemberKey(index, repo, digest) := ""];
    Marked(Marked(stored, MemberKeys(index, repo, children)), BlobMemberKeys(index, repo, blobs))
  }

  /** Some other manifest this repository serves names `digest` among its children. */
  ghost predicate ChildOfMember(model: Model, describe: Describe, index: string, repo: string, digest: string) {
    exists parent :: NamesAsChild(model, describe, index, repo, parent, digest)
  }

  ghost predicate NamesAsChild(model: Model, describe: Describe, index: string, repo: string, parent: string, digest: string) {
    IsMember(model, index, repo, parent) && parent != digest && Stored(model, parent).Some? &&
    digest in describe(Stored(model, parent).value.bytes).0
  }

  ghost function Pruned(model: Model, describe: Describe, index: string, repo: string, digest: string): Model {
    if ChildOfMember(model, describe, index, repo, digest) then model else model - {MemberKey(index, repo, digest)}
  }

  function ManifestDeleted(model: Model, digest: string): Model { model - {ManifestKey(digest)} }

  /** Something still points at `digest`: a tag of any index, a stored image index, or a referrer record. */
  ghost predicate Referenced(model: Model, describe: Describe, digest: string) {
    ByTag(model, digest) || ByParent(model, describe, digest) || ByReferrer(model, digest)
  }

  ghost predicate ByTag(model: Model, digest: string) {
    exists k :: k in model && k.TagKey? && model[k] == digest && ValidUtf8(digest)
  }

  ghost predicate ByParent(model: Model, describe: Describe, digest: string) {
    exists k :: k in model && k.ManifestKey? && Names(describe, DecodeManifest(model[k]), digest)
  }

  ghost predicate ByReferrer(model: Model, digest: string) {
    exists k :: k in model && k.ReferrerKey? && (SubjectRead(k.subject) == digest || k.referrer == digest)
  }

  ghost predicate Names(describe: Describe, m: Option<Manifest>, digest: string) {
    m.Some? && digest in describe(m.value.bytes).0
  }

  function LinkedTags(model: Model, index: string, repo: string, digest: string): set<Key> {
    set k | k in model && k.TagKey? && k.index == index && k.repo == repo && model[k] == digest
  }

  function FreshOf(tags: set<Key>): set<Key>
    requires forall k :: k in tags ==> k.TagKey?
  {
    set k | k in tags :: FreshKey(k.index, k.repo, k.tag)
  }

  function LinkedReferrers(model: Model, index: string, repo: string, digest: string): set<Key> {
    set k | k in model && k.ReferrerKey? && k.index == index && k.repo == repo && (SubjectRead(k.subject) == digest || k.referrer == digest)
  }

  /** This repository's own pointers to `digest` dropped: tags with their freshness records, then referrers. */
  function Unlinked(model: Model, index: string, repo: string, digest: string): Model {
    TagsDropped(model, LinkedTags(model, index, repo, digest)) - LinkedReferrers(model, index, repo, digest)
  }

  /** Tags gone together with their freshness records. */
  function TagsDropped(model: Model, tags: set<Key>): Model
    requires forall k :: k in tags ==> k.TagKey?
  {
    model - tags - FreshOf(tags)
  }

  /** A by-digest delete: unlink this repository's pointers, drop the bytes when nothing references them any more,
      then prune the membership. */
  ghost function DigestDeleted(model: Model, describe: Describe, index: string, repo: string, digest: string): Model {
    var unlinked := Unlinked(model, index, repo, digest);
    var dropped := if Stored(model, digest).Some? && !Referenced(unlinked, describe, digest)
                   then ManifestDeleted(unlinked, digest) else unlinked;
    Pruned(dropped, describe, index, repo, digest)
  }

  // ----- Membership closure over runs -----

  datatype Op =
    | Record(index: string, repo: string, digest: string, manifest: Manifest)
    | Prune(index: string, repo: string, digest: string)
    | DeleteManifest(digest: string)

  ghost function Apply(model: Model, describe: Describe, op: Op): Model {
    match op
    case Record(index, repo, digest, m) => Recorded(model, describe, index, repo, digest, m)
    case Prune(index, repo, digest) => Pruned(model, describe, index, repo, digest)
    case DeleteManifest(digest) => ManifestDeleted(model, digest)
  }

  ghost function Run(model: Model, describe: Describe, ops: seq<Op>): Model
    decreases |ops|
  {
    if ops == [] then model else Apply(Run(model, describe, ops[..|ops| - 1]), describe, ops[|ops| - 1])
  }

  // ----- What each operation writes, record by record -----

  /** A recording marks this key: the manifest and its children as members, its blobs as blob members. */
  ghost predicate MarkedBy(describe: Describe, index: string, repo: string, digest: string, bytes: string, k: Key) {
    match k
    case MemberKey(i, r, d) => i == index && r == repo && (d == digest || d in describe(bytes).0)
    case BlobMemberKey(i, r, d) => i == index && r == repo && d in describe(bytes).1
    case _ => false
  }

  /** A recording writes the encoded manifest under its digest, marks the manifest, its children and its blobs in this
      repository, and leaves every other record of every kind as it was. */
  lemma RecordedExact(model: Model, describe: Describe, index: string, repo: string, digest: string, m: Manifest, k: Key)
    ensures Lookup(Recorded(model, describe, index, repo, digest, m), k) ==
      if k == ManifestKey(digest) then Some(EncodeManifest(m))
      else if MarkedBy(describe, index, repo, digest, m.bytes, k) then Some("")
      else if k in model then Some(model[k]) else None
  {
    var (children, blobs) := describe(m.bytes);
    var stored := model[ManifestKey(digest) := EncodeManifest(m)][MemberKey(index, repo, digest) := ""];
    var members := Marked(stored, MemberKeys(index, repo, children));
    assert k in MemberKeys(index, repo, children) <==> k.MemberKey? && k.index == index && k.repo == repo && k.digest in children;
    assert k in BlobMemberKeys(index, repo, blobs) <==> k.BlobMemberKey? && k.index == index && k.repo == repo && k.digest in blobs;
  }

  /** A blob is one the repository serves afterwards exactly when it was or the recorded manifest names it, in this
      repository. */
  lemma RecordedBlobs(model: Model, describe: Describe, index: string, repo: string, digest: string, m: Manifest, i: string, r: string, d: string)
    ensures IsBlobMember(Recorded(model, describe, index, repo, digest, m), i, r, d) <==>
      IsBlobMember(model, i, r, d) || (i == index && r == repo && d in describe(m.bytes).1)
  {
    RecordedExact(model, describe, index, repo, digest, m, BlobMemberKey(i, r, d));
  }

  /** Another manifest of the repository, readable in the store, names the digest as a child. */
  ghost predicate ServedParent(model: Model, describe: Describe, index: string, repo: string, parent: string, digest: string) {
    && parent != digest && MemberKey(index, repo, parent) in model && ManifestKey(parent) in model
    && DecodeManifest(model[ManifestKey(parent)]).Some?
    && digest in describe(DecodeManifest(model[ManifestKey(parent)]).value.bytes).0
  }

  /** A prune takes one record at most, the membership of the digest, and takes it exactly when no other manifest that the
      repository serves names the digest. */
  lemma PrunedExact(model: Model, describe: Describe, index: string, repo: string, digest: string, k: Key)
    ensures Lookup(Pruned(model, describe, index, repo, digest), k) ==
      if k == MemberKey(index, repo, digest) && forall parent :: !ServedParent(model, describe, index, repo, parent, digest) then None
      else if k in model then Some(model[k]) else None
  {
    forall parent ensures ServedParent(model, describe, index, repo, parent, digest) <==> NamesAsChild(model, describe, index, repo, parent, digest) {}
  }

  /** A tag resolves to what was last put under it, if that is text; other tags are not moved. */
  lemma TagReadsBack(model: Model, index: string, repo: string, tag: string, digest: string, i: string, r: string, t: string)
    ensures Target(model[TagKey(index, repo, tag) := digest], i, r, t) ==
      if (i, r, t) != (index, repo, tag) then Target(model, i, r, t) else if ValidUtf8(digest) then Some(digest) else None
    ensures Target(map[], i, r, t) == None
  {
  }

  /** What the store reads back for a manifest recorded in it. */
  function ReadBack(m: Manifest): Option<Manifest> { DecodeManifest(EncodeManifest(m)) }

  /** A recording changes what one digest reads back as, and no other, however long its media type. */
  lemma RecordedStored(model: Model, describe: Describe, index: string, repo: string, digest: string, m: Manifest, d: string)
    ensures Stored(Recorded(model, describe, index, repo, digest, m), d) == if d == digest then ReadBack(m) else Stored(model, d)
  {
  }

  /** A recording makes the digest and its children members, and drops no member. */
  lemma RecordedMembers(model: Model, describe: Describe, index: string, repo: string, digest: string, m: Manifest, i: string, r: string, d: string)
    ensures IsMember(Recorded(model, describe, index, repo, digest, m), i, r, d) <==>
      IsMember(model, i, r, d) || (i == index && r == repo && (d == digest || d in describe(m.bytes).0))
  {
    RecordedExact(model, describe, index, repo, digest, m, MemberKey(i, r, d));
  }

  /** The record names each of these children, itself apart. */
  ghost predicate NamesAll(describe: Describe, read: Option<Manifest>, digest: string, children: seq<string>) {
    forall c :: c in children && c != digest ==> Names(describe, read, c)
  }

  ghost predicate Members(model: Model, index: string, repo: string, digests: seq<string>) {
    forall c :: c in digests ==> IsMember(model, index, repo, c)
  }

  /** The recording in force: the digest is a member, its record names every child, and every child is a member. */
  ghost predicate InForce(model: Model, describe: Describe, index: string, repo: string, digest: string, children: seq<string>) {
    && IsMember(model, index, repo, digest)
    && NamesAll(describe, Stored(model, digest), digest, children)
    && Members(model, index, repo, children)
  }

  /** The operations that keep a recording in force: any, except a deletion of its bytes and a recording of the same
      digest, in whatever repository, that does not read back naming the children. */
  ghost predicate Keeps(op: Op, describe: Describe, digest: string, children: seq<string>) {
    match op
    case Record(_, _, d, m) => d == digest ==> NamesAll(describe, ReadBack(m), digest, children)
    case Prune(_, _, _) => true
    case DeleteManifest(d) => d != digest
  }

  lemma RecordingInForce(model: Model, describe: Describe, index: string, repo: string, digest: string, m: Manifest)
    requires NamesAll(describe, ReadBack(m), digest, describe(m.bytes).0)
    ensures InForce(Recorded(model, describe, index, repo, digest, m), describe, index, repo, digest, describe(m.bytes).0)
  {
    RecordedStored(model, describe, index, repo, digest, m, digest);
    RecordedMembers(model, describe, index, repo, digest, m, index, repo, digest);
    forall c | c in describe(m.bytes).0 ensures IsMember(Recorded(model, describe, index, repo, digest, m), index, repo, c) {
      RecordedMembers(model, describe, index, repo, digest, m, index, repo, c);
    }
  }

  lemma StepKeepsInForce(model: Model, describe: Describe, op: Op, index: string, repo: string, digest: string, children: seq<string>)
    requires InForce(model, describe, index, repo, digest, children) && Keeps(op, describe, digest, children)
    requires IsMember(Apply(model, describe, op), index, repo, digest)
    ensures InForce(Apply(model, describe, op), describe, index, repo, digest, children)
  {
    match op {
      case Record(i, r, d, m) =>
        RecordedStored(model, describe, i, r, d, m, digest);
        forall c | c in children ensures IsMember(Apply(model, describe, op), index, repo, c) {
          RecordedMembers(model, describe, i, r, d, m, index, repo, c);
        }
      case Prune(i, r, d) =>
        if i == index && r == repo && d != digest && d in children {
          assert NamesAsChild(model, describe, index, repo, digest, d);
        }
      case DeleteManifest(d) =>
    }
  }

  /** After every step of the run the digest is still a member. */
  ghost predicate StaysMember(start: Model, describe: Describe, index: string, repo: string, digest: string, ops: seq<Op>)
    decreases |ops|
  {
    && IsMember(Run(start, describe, ops), index, repo, digest)
    && (ops != [] ==> StaysMember(start, describe, index, repo, digest, ops[..|ops| - 1]))
  }

  /** No step deletes the digest's bytes, and every recording of it, in whatever repository, is one of these. */
  ghost predicate RecordsOnly(ops: seq<Op>, digest: string, recordings: iset<Manifest>) {
    forall i :: 0 <= i < |ops| ==>
      match ops[i]
      case Record(_, _, d, m) => d == digest ==> m in recordings
      case Prune(_, _, _) => true
      case DeleteManifest(d) => d != digest
  }

  /** Each of these recordings reads back naming every child. */
  ghost predicate Naming(describe: Describe, digest: string, children: seq<string>, recordings: iset<Manifest>) {
    forall m :: m in recordings ==> NamesAll(describe, ReadBack(m), digest, children)
  }

  /** Over every run of recordings, prunes and deletions across all repositories, an image index recorded in a
      repository keeps all its children as members there for as long as it stays a member and its bytes are not
      deleted, provided every recording of the digest, wherever it is made, reads back naming them. The run may start
      from any store. */
  lemma ChildrenStayMembers(model: Model, describe: Describe, index: string, repo: string, digest: string, m: Manifest,
                            recordings: iset<Manifest>, ops: seq<Op>)
    requires m in recordings && Naming(describe, digest, describe(m.bytes).0, recordings)
    requires StaysMember(Recorded(model, describe, index, repo, digest, m), describe, index, repo, digest, ops)
    requires RecordsOnly(ops, digest, recordings)
    ensures InForce(Run(Recorded(model, describe, index, repo, digest, m), describe, ops), describe, index, repo, digest, describe(m.bytes).0)
  {
    RecordingInForce(model, describe, index, repo, digest, m);
    RunKeepsInForce(Recorded(model, describe, index, repo, digest, m), describe, index, repo, digest, describe(m.bytes).0, recordings, ops);
  }

  lemma {:induction false} RunKeepsInForce(start: Model, describe: Describe, index: string, repo: string, digest: string,
                                           children: seq<string>, recordings: iset<Manifest>, ops: seq<Op>)
    requires InForce(start, describe, index, repo, digest, children) && Naming(describe, digest, children, recordings)
    requires StaysMember(start, describe, index, repo, digest, ops) && RecordsOnly(ops, digest, recordings)
    ensures InForce(Run(start, describe, ops), describe, index, repo, digest, children)
    decreases |ops|
  {
    if ops != [] {
      var last := |ops| - 1;
      RunKeepsInForce(start, describe, index, repo, digest, children, recordings, ops[..last]);
      StepKeepsInForce(Run(start, describe, ops[..last]), describe, ops[last], index, repo, digest, children);
    }
  }

  /** The media type fits the codec's length prefix. */
  ghost predicate Encodable(m: Manifest) { |m.mediaType| <= MAX_U16 }

  /** A media type that fits is enough: the record reads back as itself. */
  lemma EncodableNamesAll(describe: Describe, digest: string, m: Manifest)
    requires Encodable(m)
    ensures NamesAll(describe, ReadBack(m), digest, describe(m.bytes).0)
  {
    ManifestRoundTrip(m);
  }

  /** If the record of a member names a child no longer, and no other member's record does, one prune drops the child
      while the index stays a member. */
  lemma PruneLosesChild(model: Model, describe: Describe, index: string, repo: string, digest: string, child: string)
    requires IsMember(model, index, repo, digest) && child != digest && !ChildOfMember(model, describe, index, repo, child)
    ensures var after := Apply(model, describe, Prune(index, repo, child));
      IsMember(after, index, repo, digest) && !IsMember(after, index, repo, child)
  {
  }

  /** A child that a recording does not read back naming is lost to the first prune of it, while the index stays a
      member. */
  lemma UnnamedChildIsLost(describe: Describe, index: string, repo: string, digest: string, m: Manifest, child: string)
    requires child in describe(m.bytes).0 && child != digest && !Names(describe, ReadBack(m), child)
    ensures var start, ops := Recorded(map[], describe, index, repo, digest, m), [Prune(index, repo, child)];
      StaysMember(start, describe, index, repo, digest, ops) && !IsMember(Run(start, describe, ops), index, repo, child)
  {
    var start := Recorded(map[], describe, index, repo, digest, m);
    RecordedMembers(map[], describe, index, repo, digest, m, index, repo, digest);
    forall parent ensures !NamesAsChild(start, describe, index, repo, parent, child) {
      RecordedStored(map[], describe, index, repo, digest, m, parent);
    }
    PruneLosesChild(start, describe, index, repo, digest, child);
    RunOne(start, describe, Prune(index, repo, child));
  }

  lemma RunOne(start: Model, describe: Describe, op: Op)
    ensures Run(start, describe, []) == start && Run(start, describe, [op]) == Apply(start, describe, op) && [op][..0] == []
  {
    assert [op][..0] == [];
  }

  lemma RunTwo(start: Model, describe: Describe, first: Op, second: Op)
    ensures Run(start, describe, [first, second]) == Apply(Apply(start, describe, first), describe, second)
    ensures [first, second][..1] == [first]
  {
    assert [first, second][..1] == [first];
    RunOne(start, describe, first);
  }

  /** So the condition on later recordings is needed. However well an index was recorded in its own repository, one more
      recording of the same bytes, in any repository, that does not read back naming a child takes the child away from it
      with the next prune. */
  lemma ReRecordingLosesChild(describe: Describe, index: string, repo: string, digest: string, m: Manifest,
                              other: string, otherRepo: string, again: Manifest, child: string)
    requires again.bytes == m.bytes && child in describe(m.bytes).0 && child != digest && !Names(describe, ReadBack(again), child)
    ensures var start := Recorded(map[], describe, index, repo, digest, m);
      var ops := [Record(other, otherRepo, digest, again), Prune(index, repo, child)];
      StaysMember(start, describe, index, repo, digest, ops) && !IsMember(Run(start, describe, ops), index, repo, child)
  {
    var start := Recorded(map[], describe, index, repo, digest, m);
    var record, prune := Record(other, otherRepo, digest, again), Prune(index, repo, child);
    var between := Recorded(start, describe, other, otherRepo, digest, again);
    RecordedMembers(map[], describe, index, repo, digest, m, index, repo, digest);
    RecordedMembers(start, describe, other, otherRepo, digest, again, index, repo, digest);
    forall parent ensures !NamesAsChild(between, describe, index, repo, parent, child) {
      RecordedStored(map[], describe, index, repo, digest, m, parent);
      RecordedStored(start, describe, other, otherRepo, digest, again, parent);
    }
    PruneLosesChild(between, describe, index, repo, digest, child);
    RunOne(start, describe, record);
    RunTwo(start, describe, record, prune);
  }

  /** The closure over every run, from every store, in every repository, that makes only these recordings of the digest. */
  ghost predicate Closed(describe: Describe, digest: string, bytes: string, recordings: iset<Manifest>) {
    forall model, index, repo, m, ops ::
      m in recordings && ClosureRun(Recorded(model, describe, index, repo, digest, m), describe, index, repo, digest, recordings, ops) ==>
        Members(Run(Recorded(model, describe, index, repo, digest, m), describe, ops), index, repo, describe(bytes).0)
  }

  ghost predicate ClosureRun(start: Model, describe: Describe, index: string, repo: string, digest: string,
                             recordings: iset<Manifest>, ops: seq<Op>) {
    StaysMember(start, describe, index, repo, digest, ops) && RecordsOnly(ops, digest, recordings)
  }

  /** Exactly when the closure holds over every run without a deletion of the digest: every recording of it reads back
      naming every child. The recordings of one digest differ in their media type only. */
  lemma ClosedIffNaming(describe: Describe, digest: string, bytes: string, recordings: iset<Manifest>)
    requires forall m :: m in recordings ==> m.bytes == bytes
    ensures Closed(describe, digest, bytes, recordings) <==> Naming(describe, digest, describe(bytes).0, recordings)
  {
    if Naming(describe, digest, describe(bytes).0, recordings) {
      forall model, index, repo, m, ops |
        m in recordings && ClosureRun(Recorded(model, describe, index, repo, digest, m), describe, index, repo, digest, recordings, ops)
        ensures Members(Run(Recorded(model, describe, index, repo, digest, m), describe, ops), index, repo, describe(bytes).0)
      {
        ChildrenStayMembers(model, describe, index, repo, digest, m, recordings, ops);
      }
    } else {
      var m :| m in recordings && !NamesAll(describe, ReadBack(m), digest, describe(bytes).0);
      var child :| child in describe(bytes).0 && child != digest && !Names(describe, ReadBack(m), child);
      UnnamedChildIsLost(describe, "", "", digest, m, child);
      var start, ops := Recorded(map[], describe, "", "", digest, m), [Prune("", "", child)];
      assert ClosureRun(start, describe, "", "", digest, recordings, ops);
      assert !Members(Run(start, describe, ops), "", "", describe(bytes).0);
    }
  }

  /** The failing family. A repository records an index under a media type that fits. Another then records the same bytes,
      fetched from an upstream that labels them with a longer one, and the shared record reads back with the rest of that
      media type in front of the body and so without the child. One prune of the child in the first repository drops it
      while the index is still served there. */
  lemma OverlongFetchLosesChild(describe: Describe, index: string, repo: string, digest: string, media: Text,
                                other: string, otherRepo: string, head: string, tail: string, body: string, child: string)
    requires |media| <= MAX_U16 && |head| == MAX_U16 && ValidUtf8(head + tail)
    requires child != digest && child in describe(body).0 && child !in describe(tail + body).0
    ensures NamesAll(describe, ReadBack(Manifest(media, body)), digest, describe(body).0)
    ensures var start := Recorded(map[], describe, index, repo, digest, Manifest(media, body));
      var after := Run(start, describe, [Record(other, otherRepo, digest, Manifest(head + tail, body)), Prune(index, repo, child)]);
      IsMember(after, index, repo, digest) && !IsMember(after, index, repo, child)
  {
    EncodableNamesAll(describe, digest, Manifest(media, body));
    OverlongReadsBack(head, tail, body);
    assert !Names(describe, ReadBack(Manifest(head + tail, body)), child);
    ReRecordingLosesChild(describe, index, repo, digest, Manifest(media, body), other, otherRepo, Manifest(head + tail, body), child);
  }

  /** The shortest form of it: the record itself made under a media type that does not fit. */
  lemma OverlongIndexLosesChild(describe: Describe, index: string, repo: string, digest: string,
                                head: string, tail: string, body: string, child: string)
    requires |head| == MAX_U16 && ValidUtf8(head + tail)
    requires child != digest && child in describe(body).0 && child !in describe(tail + body).0
    ensures var after := Run(Recorded(map[], describe, index, repo, digest, Manifest(head + tail, body)), describe, [Prune(index, repo, child)]);
      IsMember(after, index, repo, digest) && !IsMember(after, index, repo, child)
  {
    OverlongReadsBack(head, tail, body);
    assert !Names(describe, ReadBack(Manifest(head + tail, body)), child);
    UnnamedChildIsLost(describe, index, repo, digest, Manifest(head + tail, body), child);
  }

  // ----- What deletion leaves behind -----

  /** Every pointer of `after`, be it a tag, a stored child, a subject or a referrer, whose manifest was readable in
      `before` still finds it in `after`. */
  ghost predicate NothingDangles(before: Model, after: Model, describe: Describe) {
    && (forall k :: k in after && k.TagKey? && ValidUtf8(after[k]) && Stored(before, after[k]).Some? ==> Stored(after, after[k]).Some?)
    && (forall k, c :: k in after && k.ManifestKey? && Names(describe, DecodeManifest(after[k]), c) && Stored(before, c).Some? ==>
          Stored(after, c).Some?)
    && (forall k :: k in after && k.ReferrerKey? && Stored(before, SubjectRead(k.subject)).Some? ==> Stored(after, SubjectRead(k.subject)).Some?)
    && (forall k :: k in after && k.ReferrerKey? && Stored(before, k.referrer).Some? ==> Stored(after, k.referrer).Some?)
  }

  /** Deleting a digest outside the referenced set leaves no tag, child, subject or referrer dangling. */
  lemma DeleteUnreferencedIsSafe(model: Model, describe: Describe, digest: string)
    requires !Referenced(model, describe, digest)
    ensures NothingDangles(model, ManifestDeleted(model, digest), describe)
  {
    var after := ManifestDeleted(model, digest);
    forall d | d != digest ensures Stored(after, d) == Stored(model, d) {}
    forall k | k in after && k.TagKey? && ValidUtf8(after[k]) ensures after[k] != digest { assert k in model; }
    forall k, c | k in after && k.ManifestKey? && Names(describe, DecodeManifest(after[k]), c) ensures c != digest {
      assert k in model && model[k] == after[k];
    }
    forall k | k in after && k.ReferrerKey? ensures SubjectRead(k.subject) != digest && k.referrer != digest { assert k in model; }
  }

  /** Deleting a referenced digest is what the check prevents: some pointer would dangle. */
  lemma DeleteReferencedDangles(model: Model, describe: Describe, digest: string)
    requires Stored(model, digest).Some? && Referenced(model, describe, digest)
    requires !Names(describe, Stored(model, digest), digest)
    ensures !NothingDangles(model, ManifestDeleted(model, digest), describe)
  {
    var after := ManifestDeleted(model, digest);
    if k :| k in model && k.TagKey? && model[k] == digest && ValidUtf8(digest) {
      assert k in after;
    } else if k :| k in model && k.ManifestKey? && Names(describe, DecodeManifest(model[k]), digest) {
      assert k in after && after[k] == model[k];
    } else {
      var k :| k in model && k.ReferrerKey? && (SubjectRead(k.subject) == digest || k.referrer == digest);
      assert k in after;
    }
  }

  /** The whole by-digest delete: no surviving tag, child, subject or referrer dangles, in any repository, and the bytes
      go exactly when they were readable and nothing of these references them once this repository's pointers are gone. */
  lemma DigestDeleteIsSafe(model: Model, describe: Describe, index: string, repo: string, digest: string)
    ensures NothingDangles(model, DigestDeleted(model, describe, index, repo, digest), describe)
    ensures Stored(model, digest).Some? ==>
      (Stored(DigestDeleted(model, describe, index, repo, digest), digest).Some? <==>
       Referenced(Unlinked(model, index, repo, digest), describe, digest))
    ensures forall d :: d != digest ==> Stored(DigestDeleted(model, describe, index, repo, digest), d) == Stored(model, d)
  {
    var unlinked := Unlinked(model, index, repo, digest);
    var after := DigestDeleted(model, describe, index, repo, digest);
    forall d ensures Stored(unlinked, d) == Stored(model, d) {}
    forall d | d != digest ensures Stored(after, d) == Stored(model, d) {}
    if Stored(model, digest).Some? && !Referenced(unlinked, describe, digest) {
      DeleteUnreferencedIsSafe(unlinked, describe, digest);
      forall k | k in after && (k.TagKey? || k.ManifestKey? || k.ReferrerKey?)
        ensures k in ManifestDeleted(unlinked, digest) && after[k] == ManifestDeleted(unlinked, digest)[k] {}
    }
  }

  /** The whole delete, record by record. This repository's pointers to the digest go; its bytes go exactly when they were
      readable and nothing else references them; this repository's membership goes exactly when no manifest it still serves
      names the digest; nothing else goes, and nothing that stays changes. */
  lemma DigestDeletedExact(model: Model, describe: Describe, index: string, repo: string, digest: string, k: Key)
    ensures var unlinked := Unlinked(model, index, repo, digest);
      Lookup(DigestDeleted(model, describe, index, repo, digest), k) ==
        if k == ManifestKey(digest) && Stored(model, digest).Some? && !Referenced(unlinked, describe, digest) then None
        else if k == MemberKey(index, repo, digest) && forall parent :: !ServedParent(model, describe, index, repo, parent, digest) then None
        else Lookup(unlinked, k)
  {
    var unlinked := Unlinked(model, index, repo, digest);
    var dropped := if Stored(model, digest).Some? && !Referenced(unlinked, describe, digest)
                   then ManifestDeleted(unlinked, digest) else unlinked;
    PrunedExact(dropped, describe, index, repo, digest, k);
    forall parent ensures ServedParent(dropped, describe, index, repo, parent, digest) <==> ServedParent(model, describe, index, repo, parent, digest) {
      ParentUntouched(model, describe, index, repo, digest, parent);
    }
  }

  /** Neither unlinking nor dropping the digest's own bytes touches a manifest that names it or its membership. */
  lemma ParentUntouched(model: Model, describe: Describe, index: string, repo: string, digest: string, parent: string)
    ensures var unlinked := Unlinked(model, index, repo, digest);
      && (ServedParent(unlinked, describe, index, repo, parent, digest) <==> ServedParent(model, describe, index, repo, parent, digest))
      && (ServedParent(ManifestDeleted(unlinked, digest), describe, index, repo, parent, digest) <==>
          ServedParent(model, describe, index, repo, parent, digest))
  {
    UnlinkExact(model, index, repo, digest, MemberKey(index, repo, parent));
    UnlinkExact(model, index, repo, digest, ManifestKey(parent));
  }

  /** In the deleting repository no membership dangles: what is still a member there and was readable still is. */
  lemma OwnMembersStayReadable(model: Model, describe: Describe, index: string, repo: string, digest: string, d: string)
    requires Stored(model, d).Some? && IsMember(DigestDeleted(model, describe, index, repo, digest), index, repo, d)
    ensures Stored(DigestDeleted(model, describe, index, repo, digest), d).Some?
  {
    DigestDeleteIsSafe(model, describe, index, repo, digest);
  }

  /** In every other repository that holds the digest the membership stays, and the bytes behind it stay exactly when a
      tag, a stored manifest or a referrer record still references them: memberships do not count. */
  lemma OtherMembersReadIff(model: Model, describe: Describe, index: string, repo: string, digest: string, i: string, r: string)
    requires (i, r) != (index, repo) && IsMember(model, i, r, digest) && Stored(model, digest).Some?
    ensures IsMember(DigestDeleted(model, describe, index, repo, digest), i, r, digest)
    ensures Stored(DigestDeleted(model, describe, index, repo, digest), digest).Some? <==>
      Referenced(Unlinked(model, index, repo, digest), describe, digest)
  {
    DigestDeleteIsSafe(model, describe, index, repo, digest);
    UnlinkExact(model, index, repo, digest, MemberKey(i, r, digest));
  }

  /** The failing run: two repositories record the same untagged manifest, one deletes it, and the other still lists it
      as a member but can no longer read it. */
  lemma SharedUntaggedIsLost(describe: Describe, index: string, repo: string, i: string, r: string, digest: string, m: Manifest)
    requires (i, r) != (index, repo) && Encodable(m) && digest !in describe(m.bytes).0
    ensures var model := Recorded(Recorded(map[], describe, index, repo, digest, m), describe, i, r, digest, m);
      var after := DigestDeleted(model, describe, index, repo, digest);
      Stored(model, digest) == Some(m) && IsMember(after, i, r, digest) && Stored(after, digest).None?
  {
    var first := Recorded(map[], describe, index, repo, digest, m);
    var model := Recorded(first, describe, i, r, digest, m);
    ManifestRoundTrip(m);
    RecordedStored(first, describe, i, r, digest, m, digest);
    RecordedMembers(first, describe, i, r, digest, m, i, r, digest);
    SharedIsUnreferenced(describe, index, repo, i, r, digest, m);
    OtherMembersReadIff(model, describe, index, repo, digest, i, r);
  }

  lemma SharedIsUnreferenced(describe: Describe, index: string, repo: string, i: string, r: string, digest: string, m: Manifest)
    requires Encodable(m) && digest !in describe(m.bytes).0
    ensures var model := Recorded(Recorded(map[], describe, index, repo, digest, m), describe, i, r, digest, m);
      !Referenced(Unlinked(model, index, repo, digest), describe, digest)
  {
    var first := Recorded(map[], describe, index, repo, digest, m);
    var model := Recorded(first, describe, i, r, digest, m);
    forall k | k in model ensures NoPointerTo(model, describe, k, digest) {
      if k.ManifestKey? {
        RecordedStored(map[], describe, index, repo, digest, m, k.digest);
        RecordedStored(first, describe, i, r, digest, m, k.digest);
        ManifestRoundTrip(m);
      } else if k.TagKey? || k.ReferrerKey? {
        RecordedKeepsPointer(map[], describe, index, repo, digest, m, k);
        RecordedKeepsPointer(first, describe, i, r, digest, m, k);
      }
    }
    UnlinkedIsUnreferenced(model, describe, index, repo, digest);
  }

  /** This record is neither a tag nor a referrer nor a manifest that names the digest. */
  ghost predicate NoPointerTo(model: Model, describe: Describe, k: Key, digest: string)
    requires k in model
  {
    !k.TagKey? && !k.ReferrerKey? && (k.ManifestKey? ==> !Names(describe, Stored(model, k.digest), digest))
  }

  /** A recording writes no tag and no referrer record. */
  lemma RecordedKeepsPointer(model: Model, describe: Describe, index: string, repo: string, digest: string, m: Manifest, k: Key)
    requires k.TagKey? || k.ReferrerKey?
    ensures k in Recorded(model, describe, index, repo, digest, m) <==> k in model
  {
  }

  lemma UnlinkedIsUnreferenced(model: Model, describe: Describe, index: string, repo: string, digest: string)
    requires forall k :: k in model ==> NoPointerTo(model, describe, k, digest)
    ensures !Referenced(Unlinked(model, index, repo, digest), describe, digest)
  {
    var unlinked := Unlinked(model, index, repo, digest);
    forall k | k in unlinked ensures k in model && unlinked[k] == model[k] && NoPointerTo(model, describe, k, digest) {
      UnlinkExact(model, index, repo, digest, k);
    }
  }

  /** Unlinking removes exactly this repository's pointers to the digest, and no record of another kind, repository
      or target. */
  lemma UnlinkExact(model: Model, index: string, repo: string, digest: string, k: Key)
    ensures k in Unlinked(model, index, repo, digest) <==>
      && k in model
      && !(k.TagKey? && k.index == index && k.repo == repo && model[k] == digest)
      && !(k.FreshKey? && k.index == index && k.repo == repo && Lookup(model, TagKey(index, repo, k.tag)) == Some(digest))
      && !(k.ReferrerKey? && k.index == index && k.repo == repo && (SubjectRead(k.subject) == digest || k.referrer == digest))
    ensures k in Unlinked(model, index, repo, digest) ==> Unlinked(model, index, repo, digest)[k] == model[k]
  {
    var tags := LinkedTags(model, index, repo, digest);
    if k.FreshKey? && k.index == index && k.repo == repo && Lookup(model, TagKey(index, repo, k.tag)) == Some(digest) {
      assert TagKey(index, repo, k.tag) in tags;
      assert k in FreshOf(tags);
    }
  }

  /** What is left after unlinking no longer points from this repository at the digest. */
  lemma UnlinkedHasNoPointer(model: Model, index: string, repo: string, digest: string)
    ensures LinkedTags(Unlinked(model, index, repo, digest), index, repo, digest) == {}
    ensures LinkedReferrers(Unlinked(model, index, repo, digest), index, repo, digest) == {}
  {
  }
}
