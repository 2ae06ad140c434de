/** The OCI driver over the flat store: every operation acts on the records its keys stand for
    (crates/peryx-ecosystem-oci/src/store.rs). */
module OciStore {
  import opened Common
  import opened ByteOrder
  import opened OciKeys
  import opened OciModel
  import opened MetaStore

  /** A table laid out by this driver. */
  ghost predicate Driver(db: Table<Key>)
    reads db
  {
    db.Valid() && db.spell == Encode && db.ok == WellFormed
  }

  lemma LayoutInjective()
    ensures Injective(WellFormed, Encode)
  {
    forall k, l | WellFormed(k) && WellFormed(l) && Encode(k) == Encode(l) ensures k == l { EncodeInjective(k, l); }
  }

  method Open() returns (db: Table<Key>)
    ensures Driver(db) && db.model == map[] && fresh(db)
  {
    LayoutInjective();
    db := new Table(Encode, WellFormed);
  }

  ghost predicate Laid(model: Model, kv: map<string, string>) { Flattens(WellFormed, Encode, model, kv) }

  // ----- Records by name -----

  method GetManifest(db: Table<Key>, digest: string) returns (m: Option<Manifest>)
    requires db.Valid() && db.ok == WellFormed
    ensures m == Stored(db.model, digest)
  {
    var raw := db.Get(ManifestKey(digest));
    m := if raw.None? then None else DecodeManifest(raw.value);
  }

  method GetTag(db: Table<Key>, index: string, repo: string, tag: string) returns (digest: Option<string>)
    requires db.Valid() && db.ok == WellFormed && WellFormed(TagKey(index, repo, tag))
    ensures digest == Target(db.model, index, repo, tag)
  {
    var raw := db.Get(TagKey(index, repo, tag));
    digest := if raw.Some? && ValidUtf8(raw.value) then raw else None;
  }

  /** Returns whether the searchable tag set grew; retargeting an existing tag does not grow it. */
  method PutTag(db: Table<Key>, index: string, repo: string, tag: string, digest: string) returns (inserted: bool)
    requires db.Valid() && db.ok == WellFormed && WellFormed(TagKey(index, repo, tag))
    modifies db
    ensures db.Valid() && db.model == old(db.model)[TagKey(index, repo, tag) := digest]
    ensures inserted == (TagKey(index, repo, tag) !in old(db.model))
  {
    var before := db.Get(TagKey(index, repo, tag));
    inserted := before.None?;
    db.Put(TagKey(index, repo, tag), digest);
  }

  /** A tag's freshness record goes with it. */
  method DeleteTag(db: Table<Key>, index: string, repo: string, tag: string) returns (removed: bool)
    requires db.Valid() && db.ok == WellFormed && WellFormed(TagKey(index, repo, tag))
    modifies db
    ensures db.Valid() && db.model == old(db.model) - {TagKey(index, repo, tag)} - {FreshKey(index, repo, tag)}
    ensures removed == (TagKey(index, repo, tag) in old(db.model))
  {
    removed := db.Remove(TagKey(index, repo, tag));
    var _ := db.Remove(FreshKey(index, repo, tag));
  }

  method SetTagFreshness(db: Table<Key>, index: string, repo: string, tag: string, digest: string, at: i64)
    requires db.Valid() && db.ok == WellFormed && WellFormed(FreshKey(index, repo, tag))
    modifies db
    ensures db.Valid() && db.model == old(db.model)[FreshKey(index, repo, tag) := EncodeFresh(at, digest)]
  {
    db.Put(FreshKey(index, repo, tag), EncodeFresh(at, digest));
  }

  method TagFreshness(db: Table<Key>, index: string, repo: string, tag: string) returns (r: Option<(int, string)>)
    requires db.Valid() && db.ok == WellFormed && WellFormed(FreshKey(index, repo, tag))
    ensures r == (if FreshKey(index, repo, tag) in db.model then DecodeFresh(db.model[FreshKey(index, repo, tag)]) else None)
  {
    var raw := db.Get(FreshKey(index, repo, tag));
    r := if raw.None? then None else DecodeFresh(raw.value);
  }

  method RecordManifest(db: Table<Key>, describe: Describe, index: string, repo: string, digest: string, m: Manifest)
    requires db.Valid() && db.ok == WellFormed && NulFree(index) && NulFree(repo)
    modifies db
    ensures db.Valid() && db.model == Recorded(old(db.model), describe, index, repo, digest, m)
  {
    db.Put(ManifestKey(digest), EncodeManifest(m));
    db.Put(MemberKey(index, repo, digest), "");
    var (children, blobs) := describe(m.bytes);
    RecordMembers(db, index, repo, children);
    RecordBlobMembers(db, index, repo, blobs);
  }

  method RecordMembers(db: Table<Key>, index: string, repo: string, digests: seq<string>)
    requires db.Valid() && db.ok == WellFormed && NulFree(index) && NulFree(repo)
    modifies db
    ensures db.Valid() && db.model == Marked(old(db.model), MemberKeys(index, repo, digests))
  {
    for n := 0 to |digests|
      invariant db.Valid() && db.model == Marked(old(db.model), MemberKeys(index, repo, digests[..n]))
    {
      db.Put(MemberKey(index, repo, digests[n]), "");
      MarkOneMember(old(db.model), index, repo, digests, n);
    }
    assert digests[..|digests|] == digests;
  }

  method RecordBlobMembers(db: Table<Key>, index: string, repo: string, digests: seq<string>)
    requires db.Valid() && db.ok == WellFormed && NulFree(index) && NulFree(repo)
    modifies db
    ensures db.Valid() && db.model == Marked(old(db.model), BlobMemberKeys(index, repo, digests))
  {
    for n := 0 to |digests|
      invariant db.Valid() && db.model == Marked(old(db.model), BlobMemberKeys(index, repo, digests[..n]))
    {
      db.Put(BlobMemberKey(index, repo, digests[n]), "");
      MarkOneBlob(old(db.model), index, repo, digests, n);
    }
    assert digests[..|digests|] == digests;
  }

  lemma MarkOneMember(model: Model, index: string, repo: string, digests: seq<string>, n: nat)
    requires n < |digests|
    ensures Marked(model, MemberKeys(index, repo, digests[..n + 1])) ==
            Marked(model, MemberKeys(index, repo, digests[..n]))[MemberKey(index, repo, digests[n]) := ""]
  {
    assert digests[..n + 1] == digests[..n] + [digests[n]];
    assert MemberKeys(index, repo, digests[..n + 1]) == MemberKeys(index, repo, digests[..n]) + {MemberKey(index, repo, digests[n])};
  }

  lemma MarkOneBlob(model: Model, index: string, repo: string, digests: seq<string>, n: nat)
    requires n < |digests|
    ensures Marked(model, BlobMemberKeys(index, repo, digests[..n + 1])) ==
            Marked(model, BlobMemberKeys(index, repo, digests[..n]))[BlobMemberKey(index, repo, digests[n]) := ""]
  {
    assert digests[..n + 1] == digests[..n] + [digests[n]];
    assert BlobMemberKeys(index, repo, digests[..n + 1]) ==
           BlobMemberKeys(index, repo, digests[..n]) + {BlobMemberKey(index, repo, digests[n])};
  }

  method DeleteManifest(db: Table<Key>, digest: string) returns (removed: bool)
    requires db.Valid() && db.ok == WellFormed
    modifies db
    ensures db.Valid() && db.model == ManifestDeleted(old(db.model), digest) && removed == (ManifestKey(digest) in old(db.model))
  {
    removed := db.Remove(ManifestKey(digest));
  }

  // ----- Scans -----

  /** The live tags of one repository, in order, and nothing else. */
  method ListTags(db: Table<Key>, index: string, repo: string) returns (tags: seq<string>)
    requires Driver(db) && NulFree(index) && NulFree(repo)
    ensures Ascending(tags)
    ensures forall t :: t in tags <==> TagKey(index, repo, t) in db.model
  {
    var prefix := RepoTags(index, repo);
    var keys := db.PrefixKeys(prefix);
    tags := StripAll(db.kv, keys, prefix);
    forall t ensures t in tags <==> TagKey(index, repo, t) in db.model { TagScanned(db.model, db.kv, index, repo, t); }
  }

  /** The digests one repository serves. */
  method ListMembers(db: Table<Key>, index: string, repo: string) returns (members: seq<string>)
    requires Driver(db) && NulFree(index) && NulFree(repo)
    ensures forall d :: d in members <==> IsMember(db.model, index, repo, d)
  {
    var prefix := RepoMembers(index, repo);
    var keys := db.PrefixKeys(prefix);
    members := StripAll(db.kv, keys, prefix);
    forall d ensures d in members <==> IsMember(db.model, index, repo, d) { MemberScanned(db.model, db.kv, index, repo, d); }
  }

  /** The repositories of an index that have a tag, sorted and distinct. */
  method ListRepositories(db: Table<Key>, index: string) returns (repos: seq<string>)
    requires Driver(db) && NulFree(index)
    ensures Ascending(repos)
    ensures forall r :: r in repos <==> exists t :: TagKey(index, r, t) in db.model
  {
    var prefix := IndexTags(index);
    var keys := db.PrefixKeys(prefix);
    var found := ReposOf(keys, prefix);
    forall r ensures r in found <==> exists t :: TagKey(index, r, t) in db.model {
      RepositoryScanned(db.model, db.kv, index, keys, r);
    }
    repos := InOrder(found);
  }

  /** The referrer records of one repository. */
  method ListReferrers(db: Table<Key>, index: string, repo: string) returns (records: seq<Key>)
    requires Driver(db) && NulFree(index) && NulFree(repo)
    ensures forall k :: k in records <==> k in db.model && IsReferrerOf(k, index, repo)
    ensures Distinct(records)
  {
    var prefix := RepoReferrers(index, repo);
    var parse := s => ReferrerAt(s, index, repo);
    ghost var inScope := k => IsReferrerOf(k, index, repo);
    var keys := db.PrefixKeys(prefix);
    ReferrersRead(db.model, index, repo, parse, inScope);
    ScannedParse(WellFormed, Encode, db.model, db.kv, prefix, parse, inScope, keys);
    records := ParseAll(keys, parse);
    ScannedExact(WellFormed, Encode, db.model, db.kv, prefix, parse, inScope, keys, records);
  }

  predicate IsReferrerOf(k: Key, index: string, repo: string) {
    k.ReferrerKey? && k.index == index && k.repo == repo
  }

  /** The referrer record a scanned key of this repository stands for: its whole subject, separators included. */
  function ReferrerAt(key: string, index: string, repo: string): Option<Key> {
    var prefix := RepoReferrers(index, repo);
    if !(prefix <= key) then None
    else
      match RSplitOnce(key[|prefix|..], NUL)
      case None => None
      case Some(parts) => Some(ReferrerKey(index, repo, parts.0, parts.1))
  }

  lemma ReferrerAtExact(index: string, repo: string, subject: string, referrer: string)
    requires NulFree(referrer)
    ensures ReferrerAt(Encode(ReferrerKey(index, repo, subject, referrer)), index, repo) == Some(ReferrerKey(index, repo, subject, referrer))
  {
    var prefix, rest := RepoReferrers(index, repo), Cut(subject, referrer);
    StripReferrer(index, repo, rest);
    assert (prefix + rest)[|prefix|..] == rest;
    RSplitCut(subject, referrer);
  }

  lemma ReferrersRead(model: Model, index: string, repo: string, parse: string -> Option<Key>, inScope: Key -> bool)
    requires forall k :: k in model ==> WellFormed(k)
    requires NulFree(index) && NulFree(repo)
    requires forall s :: parse(s) == ReferrerAt(s, index, repo)
    requires forall k :: inScope(k) == IsReferrerOf(k, index, repo)
    ensures Reads(Encode, model, RepoReferrers(index, repo), parse, inScope)
  {
    forall k | k in model
      ensures (RepoReferrers(index, repo) <= Encode(k) <==> inScope(k)) && (inScope(k) ==> parse(Encode(k)) == Some(k))
    {
      ScanRepo(k, index, repo);
      if inScope(k) { ReferrerAtExact(k.index, k.repo, k.subject, k.referrer); }
    }
  }

  /** Whether some other manifest this repository serves names `digest`. */
  method ReachableAsChild(db: Table<Key>, describe: Describe, index: string, repo: string, digest: string) returns (reachable: bool)
    requires Driver(db) && NulFree(index) && NulFree(repo)
    ensures reachable <==> ChildOfMember(db.model, describe, index, repo, digest)
  {
    var members := ListMembers(db, index, repo);
    reachable := AnyNames(db, describe, index, repo, members, digest);
  }

  method AnyNames(db: Table<Key>, describe: Describe, index: string, repo: string, members: seq<string>, digest: string)
    returns (found: bool)
    requires db.Valid() && db.ok == WellFormed && forall d :: d in members <==> IsMember(db.model, index, repo, d)
    ensures found <==> ChildOfMember(db.model, describe, index, repo, digest)
  {
    for n := 0 to |members|
      invariant forall i :: 0 <= i < n ==> !NamesAsChild(db.model, describe, index, repo, members[i], digest)
    {
      assert members[n] in members;
      var names := MemberNames(db, describe, index, repo, members[n], digest);
      if names { return true; }
    }
    found := false;
  }

  method MemberNames(db: Table<Key>, describe: Describe, index: string, repo: string, member: string, digest: string)
    returns (names: bool)
    requires db.Valid() && db.ok == WellFormed && IsMember(db.model, index, repo, member)
    ensures names <==> NamesAsChild(db.model, describe, index, repo, member, digest)
  {
    if member == digest { return false; }
    var m := GetManifest(db, member);
    names := m.Some? && digest in describe(m.value.bytes).0;
  }

  /** Drop this repository's record of `digest` unless an index it serves still names it. */
  method PruneManifestMembership(db: Table<Key>, describe: Describe, index: string, repo: string, digest: string)
    requires Driver(db) && NulFree(index) && NulFree(repo)
    modifies db
    ensures Driver(db) && db.model == Pruned(old(db.model), describe, index, repo, digest)
  {
    var reachable := ReachableAsChild(db, describe, index, repo, digest);
    if !reachable { var _ := db.Remove(MemberKey(index, repo, digest)); }
  }

  /** The still-referenced set, gathered by three namespace scans. */
  method ReferencedManifestDigests(db: Table<Key>, describe: Describe) returns (digests: set<string>)
    requires Driver(db)
    ensures forall d :: d in digests <==> Referenced(db.model, describe, d)
  {
    var tags := db.PrefixKeys(ALL_TAGS);
    var targets := TextValues(db.kv, tags);
    var manifests := db.PrefixKeys(ALL_MANIFESTS);
    var children := NamedChildren(db.kv, manifests, describe);
    var referrers := db.PrefixKeys(ALL_REFERRERS);
    var ends := ReferrerEnds(referrers);
    digests := targets + children + ends;
    forall d ensures d in digests <==> Referenced(db.model, describe, d) {
      assert d in targets <==> ByTag(db.model, d) by { TagScanExact(db.model, db.kv, tags, d); }
      assert d in children <==> ByParent(db.model, describe, d) by { ManifestScanExact(db.model, db.kv, describe, manifests, d); }
      assert d in ends <==> ByReferrer(db.model, d) by { ReferrerScanExact(db.model, db.kv, referrers, d); }
    }
  }

  // ----- Deletion -----

  /** Drop this repository's own pointers to `digest`, reporting how many tags and referrers went. */
  method DeleteRepoTagsTo(db: Table<Key>, index: string, repo: string, digest: string)
    returns (removedTags: nat, removedReferrers: nat)
    requires Driver(db) && NulFree(index) && NulFree(repo)
    modifies db
    ensures Driver(db) && db.model == Unlinked(old(db.model), index, repo, digest)
    ensures removedTags == |LinkedTags(old(db.model), index, repo, digest)|
    ensures removedReferrers == |LinkedReferrers(old(db.model), index, repo, digest)|
  {
    removedTags := DropTagsTo(db, index, repo, digest);
    UnlinkTagsKeepsReferrers(old(db.model), index, repo, digest);
    removedReferrers := DropReferrersOf(db, index, repo, digest);
  }

  method DropTagsTo(db: Table<Key>, index: string, repo: string, digest: string) returns (removed: nat)
    requires Driver(db) && NulFree(index) && NulFree(repo)
    modifies db
    ensures db.Valid() && removed == |LinkedTags(old(db.model), index, repo, digest)|
    ensures db.model == TagsDropped(old(db.model), LinkedTags(old(db.model), index, repo, digest))
  {
    var tags := ListTags(db, index, repo);
    var doomed := TagsHolding(db, index, repo, digest, tags);
    var freshness := FreshnessOf(doomed, index, repo);
    ghost var linked := LinkedTags(db.model, index, repo, digest);
    assert Elements(doomed) == linked;
    DistinctSize(doomed);
    removed := |doomed|;
    RemoveAll(db, doomed);
    RemoveAll(db, freshness);
    assert Elements(freshness) == FreshOf(linked);
  }

  /** The tag keys of this repository whose target is `digest`. */
  method TagsHolding(db: Table<Key>, index: string, repo: string, digest: string, tags: seq<string>) returns (hits: seq<Key>)
    requires db.Valid() && db.ok == WellFormed && Ascending(tags) && forall t :: t in tags <==> TagKey(index, repo, t) in db.model
    ensures Distinct(hits) && forall k :: k in hits <==> k in LinkedTags(db.model, index, repo, digest)
  {
    hits := [];
    for n := 0 to |tags|
      invariant Distinct(hits)
      invariant forall k :: k in hits <==> k in LinkedTags(db.model, index, repo, digest) && k.tag in tags[..n]
    {
      assert tags[n] in tags && tags[..n + 1] == tags[..n] + [tags[n]];
      assert tags[n] !in tags[..n] by { forall i | 0 <= i < n ensures tags[i] != tags[n] { BeforeTotal(tags[i], tags[n]); } }
      var target := db.Get(TagKey(index, repo, tags[n]));
      if target == Some(digest) { hits := hits + [TagKey(index, repo, tags[n])]; }
    }
    assert tags[..|tags|] == tags;
  }

  method FreshnessOf(tags: seq<Key>, index: string, repo: string) returns (records: seq<Key>)
    requires forall k :: k in tags ==> k.TagKey? && k.index == index && k.repo == repo
    ensures forall k :: k in records <==> k.FreshKey? && k.index == index && k.repo == repo && TagKey(index, repo, k.tag) in tags
  {
    records := [];
    for n := 0 to |tags|
      invariant forall k :: k in records <==> k.FreshKey? && k.index == index && k.repo == repo && TagKey(index, repo, k.tag) in tags[..n]
    {
      assert tags[n] in tags && tags[..n + 1] == tags[..n] + [tags[n]];
      records := records + [FreshKey(index, repo, tags[n].tag)];
    }
    assert tags[..|tags|] == tags;
  }

  /** Dropping tags leaves the referrer records alone. */
  lemma UnlinkTagsKeepsReferrers(model: Model, index: string, repo: string, digest: string)
    ensures LinkedReferrers(TagsDropped(model, LinkedTags(model, index, repo, digest)), index, repo, digest) ==
            LinkedReferrers(model, index, repo, digest)
  {
  }

  method DropReferrersOf(db: Table<Key>, index: string, repo: string, digest: string) returns (removed: nat)
    requires Driver(db) && NulFree(index) && NulFree(repo)
    modifies db
    ensures db.Valid() && removed == |LinkedReferrers(old(db.model), index, repo, digest)|
    ensures db.model == old(db.model) - LinkedReferrers(old(db.model), index, repo, digest)
  {
    var records := ListReferrers(db, index, repo);
    var doomed := Filter(records, (k: Key) => k.ReferrerKey? && ReferrerKeyNames(Encode(k), digest));
    forall k | k in records ensures ReferrerKeyNames(Encode(k), digest) <==> SubjectRead(k.subject) == digest || k.referrer == digest {
      SplitReferrerExact(k.index, k.repo, k.subject, k.referrer);
    }
    assert Elements(doomed) == LinkedReferrers(db.model, index, repo, digest);
    DistinctSize(doomed);
    removed := |doomed|;
    RemoveAll(db, doomed);
  }

  /** The registry's by-digest delete, reporting whether anything changed. */
  method DeleteManifestByDigest(db: Table<Key>, describe: Describe, index: string, repo: string, digest: string) returns (changed: bool)
    requires Driver(db) && NulFree(index) && NulFree(repo)
    modifies db
    ensures Driver(db) && db.model == DigestDeleted(old(db.model), describe, index, repo, digest)
    ensures changed <==> Stored(old(db.model), digest).Some? || LinkedTags(old(db.model), index, repo, digest) != {} ||
                         LinkedReferrers(old(db.model), index, repo, digest) != {}
  {
    var manifest := GetManifest(db, digest);
    var removedTags, removedReferrers := DeleteRepoTagsTo(db, index, repo, digest);
    if manifest.Some? {
      var referenced := ReferencedManifestDigests(db, describe);
      if digest !in referenced { var _ := DeleteManifest(db, digest); }
    }
    PruneManifestMembership(db, describe, index, repo, digest);
    changed := manifest.Some? || removedTags > 0 || removedReferrers > 0;
  }

  // ----- Loops over scanned keys -----

  /** The repository field of a scanned tag key. */
  function RepoAt(key: string, prefix: string): Option<string> {
    if !(prefix <= key) then None
    else
      match RSplitOnce(key[|prefix|..], NUL)
      case None => None
      case Some(parts) => Some(parts.0)
  }

  method ReposOf(keys: seq<string>, prefix: string) returns (found: set<string>)
    ensures forall r :: r in found <==> exists i :: 0 <= i < |keys| && RepoAt(keys[i], prefix) == Some(r)
  {
    found := {};
    for n := 0 to |keys|
      invariant forall r :: r in found <==> exists i :: 0 <= i < n && RepoAt(keys[i], prefix) == Some(r)
    {
      var repo := RepoAt(keys[n], prefix);
      if repo.Some? { found := found + {repo.value}; }
    }
  }

  method TextValues(kv: map<string, string>, keys: seq<string>) returns (values: set<string>)
    requires forall s :: s in keys ==> s in kv
    ensures forall d :: d in values <==> exists i :: 0 <= i < |keys| && keys[i] in kv && kv[keys[i]] == d && ValidUtf8(d)
  {
    values := {};
    for n := 0 to |keys|
      invariant forall d :: d in values <==> exists i :: 0 <= i < n && keys[i] in kv && kv[keys[i]] == d && ValidUtf8(d)
    {
      assert keys[n] in keys;
      if ValidUtf8(kv[keys[n]]) { values := values + {kv[keys[n]]}; }
    }
  }

  method NamedChildren(kv: map<string, string>, keys: seq<string>, describe: Describe) returns (digests: set<string>)
    requires forall s :: s in keys ==> s in kv
    ensures forall d :: d in digests <==>
      exists i :: 0 <= i < |keys| && keys[i] in kv && Names(describe, DecodeManifest(kv[keys[i]]), d)
  {
    digests := {};
    for n := 0 to |keys|
      invariant forall d :: d in digests <==>
        exists i :: 0 <= i < n && keys[i] in kv && Names(describe, DecodeManifest(kv[keys[i]]), d)
    {
      assert keys[n] in keys;
      var m := DecodeManifest(kv[keys[n]]);
      if m.Some? { digests := digests + (set c | c in describe(m.value.bytes).0); }
    }
  }

  /** A scanned referrer key names `d` at one of its ends. */
  predicate ReferrerKeyNames(key: string, d: string) {
    var parts := SplitReferrerKey(key);
    parts.Some? && (parts.value.0 == d || parts.value.1 == d)
  }

  method ReferrerEnds(keys: seq<string>) returns (digests: set<string>)
    ensures forall d :: d in digests <==> exists i :: 0 <= i < |keys| && ReferrerKeyNames(keys[i], d)
  {
    digests := {};
    for n := 0 to |keys|
      invariant forall d :: d in digests <==> exists i :: 0 <= i < n && ReferrerKeyNames(keys[i], d)
    {
      var parts := SplitReferrerKey(keys[n]);
      if parts.Some? { digests := digests + {parts.value.0, parts.value.1}; }
    }
  }

  // ----- What the scans find -----

  /** A tag's key is exactly its repository's scan prefix followed by the tag. */
  lemma TagScanned(model: Model, kv: map<string, string>, index: string, repo: string, tag: string)
    requires Laid(model, kv) && NulFree(index) && NulFree(repo)
    ensures TagKey(index, repo, tag) in model <==> RepoTags(index, repo) + tag in kv
  {
    StripRepo(index, repo, tag);
    if RepoTags(index, repo) + tag in kv {
      var k :| k in model && Encode(k) == RepoTags(index, repo) + tag;
      ScanRepo(k, index, repo);
      StripRepo(index, repo, k.tag);
      SameRest(RepoTags(index, repo), tag, k.tag);
    }
  }

  lemma MemberScanned(model: Model, kv: map<string, string>, index: string, repo: string, digest: string)
    requires Laid(model, kv) && NulFree(index) && NulFree(repo)
    ensures IsMember(model, index, repo, digest) <==> RepoMembers(index, repo) + digest in kv
  {
    StripRepo(index, repo, digest);
    if RepoMembers(index, repo) + digest in kv {
      var k :| k in model && Encode(k) == RepoMembers(index, repo) + digest;
      ScanRepo(k, index, repo);
      StripRepo(index, repo, k.digest);
      SameRest(RepoMembers(index, repo), digest, k.digest);
    }
  }

  lemma SameRest(prefix: string, a: string, b: string)
    requires prefix + a == prefix + b
    ensures a == b
  {
    assert a == (prefix + a)[|prefix|..] && b == (prefix + b)[|prefix|..];
  }

  lemma RepositoryScanned(model: Model, kv: map<string, string>, index: string, keys: seq<string>, r: string)
    requires Laid(model, kv) && NulFree(index)
    requires forall s :: s in keys <==> s in kv && IndexTags(index) <= s
    ensures (exists i :: 0 <= i < |keys| && RepoAt(keys[i], IndexTags(index)) == Some(r)) <==>
            (exists t :: TagKey(index, r, t) in model)
  {
    if t :| TagKey(index, r, t) in model {
      RepoOfTag(TagKey(index, r, t));
      var i :| 0 <= i < |keys| && keys[i] == Encode(TagKey(index, r, t));
    }
    if i :| 0 <= i < |keys| && RepoAt(keys[i], IndexTags(index)) == Some(r) {
      assert keys[i] in keys;
      var k :| k in model && Encode(k) == keys[i];
      ScanRepo(k, index, index);
      RepoOfTag(k);
      assert TagKey(index, r, k.tag) in model;
    }
  }

  lemma RepoOfTag(k: Key)
    requires k.TagKey? && WellFormed(k)
    ensures IndexTags(k.index) <= Encode(k) && RepoAt(Encode(k), IndexTags(k.index)) == Some(k.repo)
  {
    ScanRepo(k, k.index, k.repo);
    StripRepo(k.index, k.repo, k.tag);
    RSplitCut(k.repo, k.tag);
    var prefix := IndexTags(k.index);
    assert (prefix + Cut(k.repo, k.tag))[|prefix|..] == Cut(k.repo, k.tag);
  }

  lemma TagScanExact(model: Model, kv: map<string, string>, tags: seq<string>, d: string)
    requires Laid(model, kv) && forall s :: s in tags <==> s in kv && ALL_TAGS <= s
    ensures ByTag(model, d) <==>
            (exists i :: 0 <= i < |tags| && tags[i] in kv && kv[tags[i]] == d && ValidUtf8(d))
  {
    if k :| k in model && k.TagKey? && model[k] == d && ValidUtf8(d) {
      ScanNamespace(k);
      var i :| 0 <= i < |tags| && tags[i] == Encode(k);
    }
    if i :| 0 <= i < |tags| && tags[i] in kv && kv[tags[i]] == d && ValidUtf8(d) {
      assert tags[i] in tags;
      var k :| k in model && Encode(k) == tags[i];
      ScanNamespace(k);
    }
  }

  lemma ManifestScanExact(model: Model, kv: map<string, string>, describe: Describe, manifests: seq<string>, d: string)
    requires Laid(model, kv) && forall s :: s in manifests <==> s in kv && ALL_MANIFESTS <= s
    ensures ByParent(model, describe, d) <==>
            (exists i :: 0 <= i < |manifests| && manifests[i] in kv && Names(describe, DecodeManifest(kv[manifests[i]]), d))
  {
    if k :| k in model && k.ManifestKey? && Names(describe, DecodeManifest(model[k]), d) {
      ScanNamespace(k);
      var i :| 0 <= i < |manifests| && manifests[i] == Encode(k);
    }
    if i :| 0 <= i < |manifests| && manifests[i] in kv && Names(describe, DecodeManifest(kv[manifests[i]]), d) {
      assert manifests[i] in manifests;
      var k :| k in model && Encode(k) == manifests[i];
      ScanNamespace(k);
    }
  }

  lemma ReferrerScanExact(model: Model, kv: map<string, string>, referrers: seq<string>, d: string)
    requires Laid(model, kv) && forall s :: s in referrers <==> s in kv && ALL_REFERRERS <= s
    ensures ByReferrer(model, d) <==> (exists i :: 0 <= i < |referrers| && ReferrerKeyNames(referrers[i], d))
  {
    if k :| k in model && k.ReferrerKey? && (SubjectRead(k.subject) == d || k.referrer == d) {
      ScanNamespace(k);
      SplitReferrerExact(k.index, k.repo, k.subject, k.referrer);
      var i :| 0 <= i < |referrers| && referrers[i] == Encode(k);
    }
    if i :| 0 <= i < |referrers| && ReferrerKeyNames(referrers[i], d) {
      assert referrers[i] in referrers;
      var k :| k in model && Encode(k) == referrers[i];
      ScanNamespace(k);
      SplitReferrerExact(k.index, k.repo, k.subject, k.referrer);
    }
  }
}
