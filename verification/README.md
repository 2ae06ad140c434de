# Peryx, verified

A Dafny model of the parts of peryx, an artifact server, whose correctness is an argument rather than a library call,
and proofs of what each part promises. `dafny verify dfyconfig.toml` checks the whole project.

| Part | Modules | What is proved |
|---|---|---|
| Project globs and read access | `Globs`, `Acl`, `Access` | Both matchers refine one recursive wildcard semantics, so search visibility, which is computed from residual patterns, and per-project authorization, which uses the direct matcher, agree on every string. Whom a password resolves to and what it may read is stated from the tokens, secrets, expiries and grants alone. |
| `/v2/` paths | `OciName` | Parsing and printing are inverse, up to one trailing slash and one family of routes that another shape claims; the grammars of names, tags and digests are characterised as the pieces a text splits into. |
| OCI records | `ByteOrder`, `OciKeys`, `MetaStore`, `OciModel`, `OciStore` | One string-keyed table refines separate maps, and the codecs decode exactly what the bytes lay out. On top: what each operation leaves under every key, membership closure over every run with its exact condition, the still-referenced set, and deletion that leaves no tag, child, subject or referrer dangling. |
| OCI mirror | `WorkStack`, `MirrorSpec`, `MirrorSync`, `MirrorVerify`, `MirrorReport`, `Mirror` | A Sync's work stack terminates without a visited set and a clean Sync is complete, for any answers. Verify is exact and changes nothing, and ends iff the store's own graph lets it. A clean Sync whose records read back passes Verify. References parse exactly as they are written, every one of a run is reported, and a run touches nothing outside its index and repositories. |
| Identity exchange | `TrustedPublisher`, `Replay`, `OidcExchange`, `KeyCache` | A token is minted exactly for an identity that holds and that some rule accepts, under the first such rule. No identity token is exchanged twice although entries are purged, minted lifetimes are bounded, keys are never older than an hour. The replay table and the key cache are read off the history of requests. |
| Download registry | `Download` | Safety of every interleaving of register, flush, finish and drop, and which result and which boundary a watcher sees. |
| Rate limiter | `RateLimit`, `Forwarded` | A tight bound on admissions over whole traces, when a wait of the advertised length is enough, and the forwarded-address rule. |
| Usage statistics | `UsageTree`, `DailyUsage`, `Aggregator` | Conservation between the tree's levels, snapshots that lose no usage, order-safe batching and retention. |

Each part has the form of its source. Objects that change in place are classes (`MetaStore.Table`, `Mirror.Run`,
`Replay.ReplayTable`, `KeyCache.Issuer`, `Download.Registry`, `RateLimit.RateLimiter`, `Aggregator.State`), loops are
loops, and the two boolean arrays of the glob simulation are arrays. Every such method is proved against a
specification function, and the properties are lemmas about that function and about runs of it.

## Conventions

- Text is a `string` with one `char` per UTF-8 byte, because the source scans bytes. `ValidUtf8` checks lead and
  continuation bytes; it does not tell overlong forms or surrogates apart.
- Clocks, randomness, the network and the code behind a library are parameters. `manifest_descriptors` is an arbitrary
  function from bytes to child and blob digests; in the mirror a `rank` witnesses that the graph it spans has no cycle.
- A digest determines its bytes (`MirrorSpec.Sound`). Signature verification has already happened when
  `OidcExchange` sees claims.
- A mirror run's outside world answers its manifest requests and its blob lookups by arbitrary functions of two
  counters, so nothing relates one answer to another. A media type is any text.

## Findings

- The rate limiter is a little stricter than twice its limit: if the checks of a bucket take its lock in the order of
  their clock readings, any interval of one window length holds at most `2 * requests - 1` admissions, because the check
  that opens a window is itself admitted. The bound is reached (`RateLimit.WindowBound`, `RateLimit.WindowBoundIsTight`).
  The clock is read before the lock is taken, so that order is not guaranteed, and without it the bound can be exceeded
  (`RateLimit.OutOfOrderExceedsBound`).
- The wait a denied client is told is the rest of the window in whole seconds, rounded down. A client that waits exactly
  that long can be denied once more (`RateLimit.RetryCanBeEarly`); the wait is enough iff the rest is not longer than it,
  so if it is whole seconds or less than one (`RateLimit.RetryAfterExact`).
- The manifest codec saturates its two-byte length. A push stores one of four fixed media types, but nothing bounds the
  media type of a manifest fetched from an upstream. A record with one over 65535 bytes reads back as a different
  manifest, or as none, which breaks three promises: since the record of a digest is shared, an image index can lose a
  child because another repository fetched the same bytes (`OciModel.OverlongFetchLosesChild`; `OciModel.ClosedIffNaming`
  is the exact condition), a Sync can report `synced` for a manifest that does not read back (`MirrorSync.SyncReadsBack`
  says exactly when), and the Verify after it can fail to end (`MirrorVerify.OverlongVerifyNeverEnds`;
  `MirrorVerify.VerifyRunEndsIff` says exactly when).
- A membership lets a repository answer a by-digest read, but it does not count as a reference. A by-digest delete in one
  repository can leave another with a membership and no bytes (`OciModel.SharedUntaggedIsLost`;
  `OciModel.OtherMembersReadIff` says exactly when).
- The tree of download totals is saved before the daily buckets. A stop between the two leaves totals that no bucket
  accounts for, by exactly the downloads of that batch (`DailyUsage.BucketsSumToTree`).
- The subject of a referrer record comes out of pushed JSON unchecked. A subject with a NUL keeps its own key, but
  `split_referrer_key` reads back only what follows the NUL, so the still-referenced set and the unlinking of a digest see
  that part (`OciKeys.SplitReferrerExact`).
- A tag page with an empty `Link` header reads back as a page without one (`OciKeys.PageRoundTrip`).
- An index ACL's index-wide check passes for a read grant that lists no pattern, although such a grant reads no project.
  This is the only way the converse fails (`Access.AclAnyIsSome`, `Access.EmptyGrantPassesAnyOnly`).
- A manifest or referrers path under a name ending in the component `blobs`, with the tail `contents`, is claimed by the
  layer browser and does not parse (`OciName.ClaimedRoutesDoNotParse`).
- Single use of identity tokens needs a clock that does not go back between requests. Without it a purge by a later
  clock lets an earlier-stamped request through (`OidcExchange.BackwardClockExchangesTwice`);
  `OidcExchange.ReplayRefusedIff` says exactly when.

## Model

| member | source | states |
|---|---|---|
| `Globs.MatchesWalk` | crates/peryx-identity/src/acl.rs:306-327 | the backtracking walk terminates and answers true exactly for the strings of the recursive wildcard semantics |
| `Globs.LastStarSuffices` | crates/peryx-identity/src/acl.rs:318-321 | once the literal between two stars has matched as early as it can, returning to the later star loses no match |
| `Globs.StarIsAnyRun` | crates/peryx-identity/src/acl.rs:252-253 | `*` stands for a run of any length, slashes included |
| `Globs.LiteralPrefix` | crates/peryx-identity/src/acl.rs:252-253 | every byte other than `*` matches itself and nothing else |
| `Globs.CloseStars` | crates/peryx-identity/src/acl.rs:330-336 | one ascending in-place pass is the full closure: a cell ends up set exactly if a set cell reaches it over stars alone |
| `Globs.LiveAfterByte` | crates/peryx-identity/src/acl.rs:282-295 | one byte of the simulation moves liveness exactly: direct successors plus what stars carry on |
| `Globs.RemaindersAfter` | crates/peryx-identity/src/acl.rs:276-301 | the two-array simulation returns the residuals in order: the pattern matches prefix + s iff a returned remainder matches s, for every s |
| `Globs.ResidualsExact` | crates/peryx-identity/src/acl.rs:275-301 | soundness and completeness of the residuals against the recursive semantics |
| `Globs.MatchesPrefix` | crates/peryx-identity/src/acl.rs:269-273 | true exactly when some extension of the prefix matches |
| `Globs.RemaindersRespectCharacters` | crates/peryx-identity/src/acl.rs:296-300 | slicing the pattern at a live position never splits a UTF-8 character, so the slice cannot panic |
| `Acl.AuthorizeExact` | crates/peryx-identity/src/acl.rs:24-36 | each answer as an iff over the tokens: outside an anonymous read a request passes exactly when its principal is named and the first token of that name holds a grant that lists the action and a pattern covering the project; which denial it gets otherwise |
| `Acl.IdentifyExact` | crates/peryx-identity/src/acl.rs:146-164 | a credential resolves to a name iff some token of that name is unexpired and has its password as the secret, with no earlier such token; it is anonymous iff there is none |
| `Acl.TokenNamedIsFirst` | crates/peryx-identity/src/acl.rs:185-187 | the token of a name is the first one, and there is none iff no token has the name |
| `Acl.CredentialExact` | crates/peryx-identity/src/acl.rs:24-36 | identification and authorization together: each answer to a credential as an iff over passwords, expiries and grants |
| `Access.ResourceName` | crates/peryx-driver/src/access.rs:146-160 | the resource name is the resource prefix followed by the project, also for the empty route |
| `Access.PasswordDecision` | crates/peryx-driver/src/access.rs:126-134 | on a private index, each answer about a project as an iff: allowed exactly if the password is the secret of a live token and the first token with its name grants reading the project |
| `Access.BearerDecision` | crates/peryx-driver/src/access.rs:126-134 | a bearer reads a project iff a grant with the read action covers the route, a slash and the project; on an open index everyone does |
| `Access.LiteralGrantsReadWhatTheySpell` | crates/peryx-driver/src/access.rs:126-134 | bearer grants without stars read exactly the projects they spell, under the route of the index |
| `Access.AnyDecision` | crates/peryx-driver/src/access.rs:104-120 | the index-wide check passes on an open index, whatever the credential |
| `Access.SearchAccess` | crates/peryx-driver/src/access.rs:65-96 | the pushed pattern list makes a hit visible exactly when an index served under its route authorizes that project |
| `Access.PushIndex` | crates/peryx-driver/src/access.rs:67-93 | one index appends its own patterns in grant order, under its own route |
| `Access.IndexAgrees` | crates/peryx-driver/src/access.rs:65-134 | for every credential, index and project: some glob emitted for the index matches the project iff the per-project decision allows it |
| `Access.SearchAgrees` | crates/peryx-driver/src/access.rs:65-134 | the same over the whole pattern list of any number of indexes |
| `Access.ReadGlobsCover` | crates/peryx-driver/src/access.rs:137-144 | the read globs cover a name exactly when some grant allows reading it |
| `Access.AuthorizeAny` | crates/peryx-driver/src/access.rs:104-120 | the index-wide check computes its decision through the residual simulation |
| `Access.BearerAnyIsSome` | crates/peryx-driver/src/access.rs:108-118 | for a bearer credential the index-wide check passes iff some project name, itself text, is readable |
| `Access.AclAnyIsSome` | crates/peryx-driver/src/access.rs:104-107 | for an index ACL a readable project implies the index-wide check, and conversely except for read grants without a pattern |
| `Access.EmptyGrantPassesAnyOnly` | crates/peryx-driver/src/access.rs:104-107 | the exception exists: a read grant with no pattern passes index-wide and reads nothing |
| `OciName.ValidNameComponent` | crates/peryx-ecosystem-oci/src/name.rs:114-138 | the nested separator loops accept exactly the `<name>` component grammar |
| `OciName.ComponentIsSafe` | crates/peryx-ecosystem-oci/src/name.rs:112-138 | no accepted component holds a slash or is a dot segment |
| `OciName.ComponentExact` | crates/peryx-ecosystem-oci/src/name.rs:112-138 | a component is exactly runs of lower-case letters and digits, joined by `.`, `_`, `__` or dashes |
| `OciName.TagExact` | crates/peryx-ecosystem-oci/src/name.rs:152-163 | a tag is exactly 1 to 128 bytes over the listed alphabet with its first byte over the narrower one |
| `OciName.DigestExact` | crates/peryx-ecosystem-oci/src/name.rs:165-178 | a digest is accepted, verbatim, iff it is algorithm, colon and encoding over their alphabets |
| `OciName.ReferenceExact` | crates/peryx-ecosystem-oci/src/name.rs:141-150 | a reference parses to what it spells, a digest if it has that shape and a tag otherwise, and to nothing else |
| `OciName.WellFormedExact` | crates/peryx-ecosystem-oci/src/name.rs:9-36 | a route is well formed iff its name is components joined by slashes and its other parts have the shapes above |
| `OciName.RenderSpells` | crates/peryx-ecosystem-oci/src/name.rs:9-36 | the print of each route, spelled out |
| `OciName.ParseDigest` | crates/peryx-ecosystem-oci/src/name.rs:165-178 | a digest is returned verbatim, and has a colon and no slash |
| `OciName.ClassifyExact` | crates/peryx-ecosystem-oci/src/name.rs:41-178 | a path parses to a route iff the route is well formed, is not claimed by the layer browser, and the path is its print up to one trailing slash |
| `OciName.ClassifyIsPrint` | crates/peryx-ecosystem-oci/src/name.rs:41-101 | whatever classify accepts is the print of the route it returns |
| `OciName.RenderParses` | crates/peryx-ecosystem-oci/src/name.rs:41-101 | every well-formed, unclaimed route re-parses to itself, with or without a trailing slash |
| `OciName.ClaimedRoutesDoNotParse` | crates/peryx-ecosystem-oci/src/name.rs:65-80 | the whole claimed family (manifest or referrers under a name ending in `blobs`, tail `contents`) parses to nothing, under any component grammar without slashes |
| `OciName.ClaimedExample` | crates/peryx-ecosystem-oci/src/name.rs:65-80 | the family is inhabited: tag `contents` of repository `blobs` |
| `OciKeys.EncodeInjective` | crates/peryx-ecosystem-oci/src/store.rs:17-21 | no two records of any kind share a key, across all seven namespaces, whatever a referrer record's subject holds |
| `OciKeys.ScanNamespace` | crates/peryx-ecosystem-oci/src/store.rs:407-430 | a whole-namespace scan sees that namespace and none of the others |
| `OciKeys.ScanRepo` | crates/peryx-ecosystem-oci/src/store.rs:55-67 | a repository or index scan sees exactly its own records of that kind |
| `OciKeys.ScanSubject` | crates/peryx-ecosystem-oci/src/store.rs:382-396 | a referrers scan sees the records of that subject, and beyond them exactly those whose subject continues it with a NUL |
| `OciKeys.SplitReferrerExact` | crates/peryx-ecosystem-oci/src/store.rs:467-471 | the last two fields of any referrer key are its referrer and the part of its subject after the last NUL, which is the subject iff that has none |
| `OciKeys.ManifestRoundTrip` | crates/peryx-ecosystem-oci/src/store.rs:30-52 | the manifest codec round-trips iff the media type fits its two-byte length |
| `OciKeys.OverlongReadsBack` | crates/peryx-ecosystem-oci/src/store.rs:30-52 | what a longer media type reads back as: its rest moves in front of the body, or nothing if the cut splits a character |
| `OciKeys.BytesReadBack` | crates/peryx-ecosystem-oci/src/store.rs:30-52 | a record reads back as its own bytes iff the media type fits |
| `OciKeys.PageRoundTrip` | crates/peryx-ecosystem-oci/src/store.rs:266-317 | the tag-page codec round-trips iff the link is not an empty header and fits four bytes |
| `OciKeys.FreshRoundTrip` | crates/peryx-ecosystem-oci/src/store.rs:320-356 | a freshness record reads back its instant and digest iff the digest is text, and reads back as none otherwise |
| `OciKeys.InstantRoundTrip` | crates/peryx-ecosystem-oci/src/store.rs:329-356 | a signed 64-bit instant survives its eight bytes |
| `OciKeys.LayoutSpells` | crates/peryx-ecosystem-oci/src/store.rs:55-67 | the key of each kind of record, spelled out |
| `OciKeys.DecodeExact` | crates/peryx-ecosystem-oci/src/store.rs:41-52 | any bytes decode to a manifest iff they are a two-byte length, that much media type and the body, and to nothing iff they are too short or the media type is not text |
| `OciKeys.DecodePageExact` | crates/peryx-ecosystem-oci/src/store.rs:300-317 | the same for a tag page: instant, link length, link, body |
| `OciKeys.DecodeFreshExact` | crates/peryx-ecosystem-oci/src/store.rs:346-356 | the same for a freshness record: instant and a digest that is text |
| `OciKeys.MostSignificantFirst` | crates/peryx-ecosystem-oci/src/store.rs:30-40 | lengths are written most significant byte first |
| `OciKeys.TwosComplement` | crates/peryx-ecosystem-oci/src/store.rs:329-341 | a negative instant is written as its two's complement |
| `MetaStore.Table.Put` | crates/peryx-storage/src/meta/index.rs:14-25 | a write through the spelled key is one update of the abstract map, and the flat table still carries exactly that map |
| `MetaStore.Table.Remove` | crates/peryx-storage/src/meta/index.rs:38-49 | a removal through the spelled key removes that record alone and reports whether it was there |
| `MetaStore.Table.Get` | crates/peryx-storage/src/meta/index.rs:28-36 | a point read is a lookup of the abstract map |
| `MetaStore.Table.PrefixKeys` | crates/peryx-storage/src/meta/index.rs:52-80 | a prefix scan yields the keys with that prefix, ascending, each once |
| `OciStore.Open` | crates/peryx-ecosystem-oci/src/store.rs:17-21 | the driver's layout is a valid flat table: constructors injective, nothing stored |
| `OciStore.GetManifest` | crates/peryx-ecosystem-oci/src/store.rs:123-127 | reads the abstract manifest record of the digest |
| `OciStore.RecordManifest` | crates/peryx-ecosystem-oci/src/store.rs:84-101 | stores the manifest and marks it, its children and its blobs in the repository, and leaves every other record as it was |
| `OciStore.PutTag` | crates/peryx-ecosystem-oci/src/store.rs:165-170 | retargets one tag and reports whether the tag set grew |
| `OciStore.GetTag` | crates/peryx-ecosystem-oci/src/store.rs:173-177 | a tag's target, nothing when it is missing or not text |
| `OciStore.DeleteTag` | crates/peryx-ecosystem-oci/src/store.rs:256-262 | removes the tag together with its freshness record |
| `OciStore.SetTagFreshness` | crates/peryx-ecosystem-oci/src/store.rs:329-341 | writes one freshness record |
| `OciStore.TagFreshness` | crates/peryx-ecosystem-oci/src/store.rs:346-356 | reads it back through its codec |
| `OciStore.ListTags` | crates/peryx-ecosystem-oci/src/store.rs:202-209 | exactly the live tags of that repository, ascending and distinct |
| `OciStore.ListRepositories` | crates/peryx-ecosystem-oci/src/store.rs:184-199 | exactly the repositories with at least one tag, ascending and distinct |
| `OciStore.DeleteManifest` | crates/peryx-ecosystem-oci/src/store.rs:215-217 | removes the one manifest record and reports whether it was there |
| `OciStore.ReachableAsChild` | crates/peryx-ecosystem-oci/src/store.rs:235-250 | true iff some other readable member of the repository names the digest as a child |
| `OciStore.PruneManifestMembership` | crates/peryx-ecosystem-oci/src/store.rs:227-232 | drops the membership unless the digest is still such a child |
| `OciStore.ReferencedManifestDigests` | crates/peryx-ecosystem-oci/src/store.rs:407-430 | the three scans gather exactly tag targets of all indexes, children of all stored manifests, and both ends of all referrer records |
| `OciStore.DeleteRepoTagsTo` | crates/peryx-ecosystem-oci/src/store.rs:434-463 | removes exactly this repository's pointers to the digest, with exact counts of tags and referrers |
| `OciStore.DeleteManifestByDigest` | crates/peryx-ecosystem-oci/src/registry/manifests/write.rs:189-200 | the composed delete reaches its abstract effect and reports exactly whether anything was there to change |
| `OciModel.RecordedStored` | crates/peryx-ecosystem-oci/src/store.rs:84-101 | recording changes what its digest reads back as, to what the codec makes of it, and no other digest, for any media type |
| `OciModel.RecordedMembers` | crates/peryx-ecosystem-oci/src/store.rs:84-101 | the members after a recording are the old ones, the digest and its children, in that repository alone |
| `OciModel.RecordedExact` | crates/peryx-ecosystem-oci/src/store.rs:84-101 | after a recording, what is under every key of every kind: the record, an empty marker under the memberships of the digest, its children and its blobs, everything else as before |
| `OciModel.RecordedBlobs` | crates/peryx-ecosystem-oci/src/store.rs:84-101 | the blobs a repository serves after a recording are the ones before and those the manifest describes, in that repository alone |
| `OciModel.TagReadsBack` | crates/peryx-ecosystem-oci/src/store.rs:165-177 | after a retarget that tag reads back its new target and every other tag its old one |
| `OciModel.PrunedExact` | crates/peryx-ecosystem-oci/src/store.rs:227-250 | a prune removes the one marker iff no readable member other than the digest itself names it as a child, and touches no other key |
| `OciModel.DigestDeletedExact` | crates/peryx-ecosystem-oci/src/registry/manifests/write.rs:189-200 | a by-digest delete, key by key: when the bytes go, when the membership of the deleting repository goes, and that beyond the unlinked pointers nothing else does |
| `OciModel.ChildrenStayMembers` | crates/peryx-ecosystem-oci/src/store.rs:84-101 | over every run of recordings, prunes and deletions across repositories, from any store, a recorded image index keeps all its children as members while it stays one and its bytes are not deleted, provided every recording of its digest, wherever made, reads back naming them |
| `OciModel.EncodableNamesAll` | crates/peryx-ecosystem-oci/src/store.rs:30-52 | a media type that fits is enough for the record to read back naming its children |
| `OciModel.UnnamedChildIsLost` | crates/peryx-ecosystem-oci/src/store.rs:227-250 | a child a recording does not read back naming is lost to the first prune of it, while the index stays a member |
| `OciModel.ReRecordingLosesChild` | crates/peryx-ecosystem-oci/src/store.rs:227-250 | the condition on later recordings is needed: any further recording of the same bytes, in any repository, that does not read back naming a child takes it away with the next prune |
| `OciModel.ClosedIffNaming` | crates/peryx-ecosystem-oci/src/store.rs:84-101 | exactly when the closure holds over every run without a deletion of the digest: iff every recording of it reads back naming every child |
| `OciModel.OverlongFetchLosesChild` | crates/peryx-ecosystem-oci/src/store.rs:30-52 | the failing family: a repository that recorded an index under a fitting media type loses a child once another repository records the same bytes, fetched under a longer one |
| `OciModel.OverlongIndexLosesChild` | crates/peryx-ecosystem-oci/src/store.rs:30-52 | its shortest form: recording and pruning in one repository |
| `OciModel.StepKeepsInForce` | crates/peryx-ecosystem-oci/src/store.rs:227-250 | no operation breaks that closure, recordings of other digests included, whatever their media type |
| `OciModel.DeleteUnreferencedIsSafe` | crates/peryx-ecosystem-oci/src/store.rs:407-430 | deleting a digest outside the referenced set leaves no tag, child, subject or referrer dangling |
| `OciModel.DeleteReferencedDangles` | crates/peryx-ecosystem-oci/src/store.rs:407-430 | conversely, deleting a referenced digest would leave a pointer dangling |
| `OciModel.DigestDeleteIsSafe` | crates/peryx-ecosystem-oci/src/registry/manifests/write.rs:189-200 | a by-digest delete leaves no tag, stored child, subject or referrer dangling in any repository, and the bytes go iff none of these references them once this repository's pointers are gone |
| `OciModel.OwnMembersStayReadable` | crates/peryx-ecosystem-oci/src/registry/manifests/write.rs:189-200 | in the deleting repository no membership dangles |
| `OciModel.OtherMembersReadIff` | crates/peryx-ecosystem-oci/src/registry/manifests/write.rs:189-200 | in every other repository that holds the digest the membership stays, and the bytes behind it stay iff a tag, a stored manifest or a referrer record references them |
| `OciModel.SharedUntaggedIsLost` | crates/peryx-ecosystem-oci/src/registry/manifests/write.rs:189-200 | the failing run: of two repositories with the same untagged manifest one deletes it, and the other keeps a membership it can no longer read |
| `OciModel.UnlinkExact` | crates/peryx-ecosystem-oci/src/store.rs:434-463 | which records unlinking removes, as an iff over every record of every kind |
| `OciModel.UnlinkedHasNoPointer` | crates/peryx-ecosystem-oci/src/store.rs:434-463 | afterwards this repository has no pointer to the digest |
| `Mirror.Run.FetchManifest` | crates/peryx-ecosystem-oci/src/mirror.rs:207-270 | one request: which rows, records, tag and freshness writes each answer leads to |
| `Mirror.Run.ReadManifest` | crates/peryx-ecosystem-oci/src/mirror.rs:273-308 | Verify reads the tag and the manifest and writes only a row |
| `Mirror.Run.FetchBlob` | crates/peryx-ecosystem-oci/src/mirror.rs:329-374 | one blob: unsupported digest, store fault, cached, absent in Verify, fetched |
| `Mirror.Run.FetchChildren` | crates/peryx-ecosystem-oci/src/mirror.rs:312-326 | children are requested in order, the ones that arrive are pushed, a fault stops the loop |
| `Mirror.Run.WalkManifest` | crates/peryx-ecosystem-oci/src/mirror.rs:312-326 | the work stack without a visited set computes the specified walk and terminates: in Sync over any acyclic content, in Verify whenever the store's own graph lets the stack run empty |
| `Mirror.Run.MirrorOne` | crates/peryx-ecosystem-oci/src/mirror.rs:198-205 | one reference: parse, fetch, walk |
| `Mirror.Run.MirrorAll` | crates/peryx-ecosystem-oci/src/mirror.rs:127-188 | the whole run with its summary row; the no-upstream report; no report after a fault |
| `MirrorSpec.ParseRefExact` | crates/peryx-ecosystem-oci/src/mirror.rs:84-112 | a reference parses to an image iff it writes it: `repo@digest`, `repo:tag` with a tag free of slash and colon, or a bare repository, whose tag is `latest` |
| `MirrorSpec.ParseRefFails` | crates/peryx-ecosystem-oci/src/mirror.rs:84-112 | it does not parse iff it has an `@` with nothing before its first one or nothing after it |
| `MirrorReport.FetchExact` | crates/peryx-ecosystem-oci/src/mirror.rs:207-270 | one Sync request from its answer: when a manifest is taken and with which media type, when the run is cut short, and the row |
| `MirrorReport.TakenExact` | crates/peryx-ecosystem-oci/src/mirror.rs:207-270 | a manifest that is taken, key by key: record, markers, tag and freshness of the requested tag, all else as before |
| `MirrorReport.ReadExact` | crates/peryx-ecosystem-oci/src/mirror.rs:273-308 | one Verify request: which digest it looks at, what it hands back, its row, and no other change |
| `MirrorReport.BlobExact` | crates/peryx-ecosystem-oci/src/mirror.rs:329-374 | one blob, from the store and the upstream: cached, fetched with its size, or an error, and what the store then holds |
| `MirrorReport.TurnReports` | crates/peryx-ecosystem-oci/src/mirror.rs:312-326 | a turn writes one row for each child and then one for each blob of the manifest, in order |
| `MirrorReport.ChildrenPush` | crates/peryx-ecosystem-oci/src/mirror.rs:312-326 | a child is either pushed or reported as an error, and each exactly once |
| `MirrorReport.RunGoesOn` | crates/peryx-ecosystem-oci/src/mirror.rs:127-205 | a whole run only adds rows, is cut short iff one of its requests met an oversized body, leaves every record outside its index and repositories alone, and otherwise has a row for every reference |
| `MirrorReport.SummaryCounts` | crates/peryx-ecosystem-oci/src/mirror.rs:171-187 | the summary names the index and counts the rows that were synced |
| `MirrorSpec.PendingShrinks` | crates/peryx-ecosystem-oci/src/mirror.rs:312-326 | every turn brings the stack closer to its end: in Sync by graph size with repetition, whatever the store holds; in Verify by the turns left over the graph the store reads back as |
| `MirrorSpec.FetchedIsContent` | crates/peryx-ecosystem-oci/src/mirror.rs:236-250 | what a Sync hands back for a digest is that digest's content, whatever the store holds |
| `MirrorSpec.TurnReads` | crates/peryx-ecosystem-oci/src/mirror.rs:312-374 | a turn of Verify changes no store and pushes exactly what the store reads back for the children |
| `MirrorSpec.SummaryTells` | crates/peryx-ecosystem-oci/src/mirror.rs:171-187 | the summary row is an error exactly when some row was |
| `WorkStack.EndsIffNotTrapped` | crates/peryx-ecosystem-oci/src/mirror.rs:312-326 | a work stack without a visited set runs empty iff it holds nothing of a set whose members each push another of them |
| `MirrorSync.AdmittedReadsBack` | crates/peryx-ecosystem-oci/src/mirror.rs:228-260 | an admitted answer reads back as its own bytes iff its media type fits the codec; no other digest reads back differently |
| `MirrorSync.RequestHoldsIff` | crates/peryx-ecosystem-oci/src/mirror.rs:207-270 | a request that hands back a manifest leaves it readable and recorded iff its media type fits |
| `MirrorSync.WalkSync` | crates/peryx-ecosystem-oci/src/mirror.rs:312-374 | a clean walk completes everything reachable from its stack |
| `MirrorSync.SyncIsComplete` | crates/peryx-ecosystem-oci/src/mirror.rs:198-270 | a clean Sync completes the graph of every reference, later ones not undoing earlier ones, for any answers and any store |
| `MirrorSync.SyncMirrorsGraph` | crates/peryx-ecosystem-oci/src/mirror.rs:127-188 | after a Sync without fault or error row, everything below every requested reference has the record of its bytes written, is a member of the repository, and has its blobs present and recorded as members of the repository |
| `MirrorSync.SyncReadsBack` | crates/peryx-ecosystem-oci/src/mirror.rs:127-188 | exactly which of it the store then reads back: a manifest is readable iff the latest answer for it carried a media type of at most 65535 bytes |
| `MirrorVerify.VerifyIsExact` | crates/peryx-ecosystem-oci/src/mirror.rs:273-326 | Verify changes no store, and is free of error rows iff every reference resolves, its whole readable set is present, and no lookup the run made faulted |
| `MirrorVerify.VerifyEndsIff` | crates/peryx-ecosystem-oci/src/mirror.rs:312-326 | a Verify walk ends iff its stack holds no manifest out of which the store keeps reading another of the same kind |
| `MirrorVerify.VerifyEndsIffAcyclic` | crates/peryx-ecosystem-oci/src/mirror.rs:312-326 | over the finite store: iff no manifest that can be read from the stack on reads back to itself |
| `MirrorVerify.VerifyRunEndsIff` | crates/peryx-ecosystem-oci/src/mirror.rs:127-188 | a Verify run ends iff no reference resolves to a manifest with such a cycle below it |
| `MirrorVerify.AddressedRefsEnd` | crates/peryx-ecosystem-oci/src/mirror.rs:312-326 | over a store whose records read back as their own content, a run over any references ends |
| `MirrorVerify.OverlongVerifyNeverEnds` | crates/peryx-ecosystem-oci/src/mirror.rs:228-233 | the failing run: a clean Sync of an over-long media type after which Verify of the same tag walks from a manifest to itself forever |
| `MirrorVerify.OverlongRunExists` | crates/peryx-ecosystem-oci/src/mirror.rs:228-233 | such a run exists |
| `MirrorVerify.SyncThenVerify` | crates/peryx-ecosystem-oci/src/mirror.rs:127-188 | after a clean Sync whose latest answers carried media types that fit, Verify of the same references ends, and is clean iff no lookup of its own faults |
| `TrustedPublisher.FirstMismatch` | crates/peryx-identity/src/trusted_publisher.rs:88-92 | names the first required claim that is missing or different, and nothing iff all are carried |
| `TrustedPublisher.AuthorizePublishIndex` | crates/peryx-identity/src/trusted_publisher.rs:36-50 | the chosen rule is the first whose issuer, audience, subject pattern and required claims fit an unexpired token, with a write grant on its projects; there is none iff no rule does |
| `TrustedPublisher.RuleExact` | crates/peryx-identity/src/trusted_publisher.rs:76-98 | one rule: granted iff it asks nothing the claims do not carry, and each refusal in terms of the claims |
| `TrustedPublisher.DecisionExact` | crates/peryx-identity/src/trusted_publisher.rs:36-50 | the decision over all rules, and what each denial says about all of them: no issuer, no audience, expired, no subject, or the first claim missing from the last rule that got that far |
| `Replay.ReplayTable.ConsumeReplay` | crates/peryx-identity/src/oidc.rs:314-327 | purge, then replay, capacity or insertion; the table stays within its capacity |
| `Replay.TableIsBounded` | crates/peryx-identity/src/oidc.rs:314-327 | in every run the table holds at most its capacity |
| `Replay.EntryStays` | crates/peryx-identity/src/oidc.rs:314-327 | an accepted entry stays until a purge past its expiry |
| `Replay.ReplayIffNotPurged` | crates/peryx-identity/src/oidc.rs:314-327 | on any clock, a repeated attempt is refused as a replay iff no purge past the first expiry came in between |
| `Replay.SecondSuccessNeedsPurge` | crates/peryx-identity/src/oidc.rs:314-327 | on any clock, two successes for one identity have such a purge between them |
| `Replay.BackwardClockReplays` | crates/peryx-identity/src/oidc.rs:314-327 | a clock that goes back does break single use: a concrete run |
| `Replay.TableIsHistory` | crates/peryx-identity/src/oidc.rs:314-327 | in every run the table holds exactly the accepted attempts that no later clock has passed |
| `Replay.AnswerExact` | crates/peryx-identity/src/oidc.rs:314-327 | every answer of a run from its history: a replay iff the identity is still standing, full iff it is not and the capacity is reached by those that are |
| `OidcExchange.RunExchange` | crates/peryx-identity/src/oidc.rs:142-166 | the exchange as it runs computes the specified step on the replay table |
| `OidcExchange.MintIsBounded` | crates/peryx-identity/src/oidc.rs:147-166 | a minted expiry is after now and is the smaller of now + ttl and the identity's own expiry; the identity satisfies every check on its claims, and the position is that of the first rule that trusts it |
| `OidcExchange.GateExact` | crates/peryx-identity/src/oidc.rs:142-211 | an exchange is refused as invalid iff the claims do not hold, reaches the replay table iff they hold and some rule trusts them, and is otherwise denied for the reason the rules give |
| `OidcExchange.AttemptExact` | crates/peryx-identity/src/oidc.rs:142-166 | what an attempt consumes and what it would mint |
| `OidcExchange.ExchangeExact` | crates/peryx-identity/src/oidc.rs:142-166 | all five outcomes as iffs over claims, rules and the entries the table remembers past now: minted exactly if valid, trusted, not remembered and not at capacity |
| `OidcExchange.AttemptIsLive` | crates/peryx-identity/src/oidc.rs:198-211 | only identities that expire after now and within an hour reach the replay table |
| `OidcExchange.NoTokenTwice` | crates/peryx-identity/src/oidc.rs:142-166 | over every run whose clock does not go back between requests that reach the table, no (issuer, jti, expiry) is exchanged twice, although entries are purged |
| `OidcExchange.SecondExchangeNeedsPurge` | crates/peryx-identity/src/oidc.rs:142-166 | on any clock, a second exchange of a token needs a request strictly in between that reached the table with its clock at or past the expiry |
| `OidcExchange.ReplayRefusedIff` | crates/peryx-identity/src/oidc.rs:142-166 | on any clock, a repeated token is refused as a replay iff there was no such request |
| `OidcExchange.BackwardClockExchangesTwice` | crates/peryx-identity/src/oidc.rs:142-166 | a concrete run of requests with a backward clock exchanges one token twice |
| `OidcExchange.RunIsBounded` | crates/peryx-identity/src/oidc.rs:314-327 | in every run the table is within capacity and no entry outlives the attempts' clock by more than an hour |
| `KeyCache.Issuer.KeyFor` | crates/peryx-identity/src/oidc.rs:229-246 | one lookup: when it fetches, what a failed fetch keeps, what is answered |
| `KeyCache.CacheHasOrigin` | crates/peryx-identity/src/oidc.rs:248-269 | in every run the cache is empty or carries the latest fetch, soft deadline no later than the hard one |
| `KeyCache.KeysAreYoung` | crates/peryx-identity/src/oidc.rs:229-269 | a key is answered only less than 3600 s after the fetch that produced it, which is the latest fetch |
| `KeyCache.AttemptsAreSpaced` | crates/peryx-identity/src/oidc.rs:229-246 | consecutive fetch attempts are at least 60 s apart unless the set is past its hard deadline |
| `KeyCache.FailureKeepsKeys` | crates/peryx-identity/src/oidc.rs:229-246 | a failed refresh keeps keys and deadlines and still answers until the hard deadline |
| `KeyCache.CacheIsHistory` | crates/peryx-identity/src/oidc.rs:229-269 | in every run keys, deadlines and back-off are those of the latest successful fetch and the latest attempt |
| `KeyCache.AttemptExact` | crates/peryx-identity/src/oidc.rs:229-246 | a lookup fetches iff the key is not held or the last fetch is past its freshness, and the last attempt is a minute back or the last fetch an hour |
| `KeyCache.AnswerExact` | crates/peryx-identity/src/oidc.rs:229-246 | every answer of a run: the key of the latest fetch, unknown, or an error if a needed fetch failed |
| `Download.Registry.RegisterDownload` | crates/peryx-driver/src/download.rs:76-104 | joins the running transfer of the digest or becomes its producer, atomically |
| `Download.Registry.PublishFlushed` | crates/peryx-driver/src/download.rs:121-123 | sets the flushed boundary of an active producer's own channel |
| `Download.Registry.LeaveRegistry` | crates/peryx-driver/src/download.rs:126-137 | removes the producer's own entry and no other |
| `Download.Registry.PublishResult` | crates/peryx-driver/src/download.rs:126-130 | publishes the result after the entry is gone |
| `Download.Registry.Abandon` | crates/peryx-driver/src/download.rs:139-148 | a dropped producer leaves and its watchers learn that the transfer was abandoned |
| `Download.StepKeepsInv` | crates/peryx-driver/src/download.rs:76-148 | every step of every actor keeps: registry entries are exactly the active producers, done channels exactly those of exited ones |
| `Download.OneTransferPerDigest` | crates/peryx-driver/src/download.rs:76-104 | in every interleaving a digest has one active transfer, and a newcomer never attaches to a published one |
| `Download.ResultsAreFinal` | crates/peryx-driver/src/download.rs:121-148 | a published channel never changes again, flushes included |
| `Download.DoneIff` | crates/peryx-driver/src/download.rs:126-148 | a watcher sees a result iff its producer left with that result and then published it |
| `Download.FlushedIsLast` | crates/peryx-driver/src/download.rs:121-123 | a watcher sees the boundary of the last flush of its own producer, and zero before any |
| `Download.OnlyOwnEntryLeaves` | crates/peryx-driver/src/download.rs:132-137 | an entry leaves the registry only by its own producer's step |
| `Download.OwnStepsStayEnabled` | crates/peryx-driver/src/download.rs:126-148 | nothing another actor does moves a producer or disables its exit |
| `Download.QuietMeansDone` | crates/peryx-driver/src/download.rs:139-148 | once all producers have exited the registry is empty and every channel has a result |
| `RateLimit.RateLimiter.CheckRequest` | crates/peryx-driver/src/rate_limit.rs:185-216 | one check: bucket creation, reset, admission or denial with its wait, and one counter |
| `RateLimit.WindowBound` | crates/peryx-driver/src/rate_limit.rs:185-216 | if a bucket's checks take its lock in the order of their clock readings, any half-open interval of one window length holds at most 2 * requests - 1 admissions of it |
| `RateLimit.OutOfOrderExceedsBound` | crates/peryx-driver/src/rate_limit.rs:191-205 | out of that order the bound fails: six checks put four admissions of a limit of two into one window length |
| `RateLimit.WindowBoundIsTight` | crates/peryx-driver/src/rate_limit.rs:185-216 | a burst reaches that bound, for every limit |
| `RateLimit.WithinOneWindow` | crates/peryx-driver/src/rate_limit.rs:185-216 | between two openings of a window at most `requests` checks are admitted, on any clock |
| `RateLimit.EveryCheckCounted` | crates/peryx-driver/src/rate_limit.rs:240-258 | in every run the allowed counter of a class is the number of its admitted checks and the denied counter that of its refused ones |
| `RateLimit.CheckTouchesOneBucket` | crates/peryx-driver/src/rate_limit.rs:185-216 | a check changes its own bucket only, and admits iff the current window has room |
| `RateLimit.UnlimitedIsAdmitted` | crates/peryx-driver/src/rate_limit.rs:185-190 | a class without a limit admits every check and keeps no bucket for it |
| `RateLimit.RetryAfterExact` | crates/peryx-driver/src/rate_limit.rs:209-216 | the advertised wait is the rest of the window rounded down, at least one second; without other checks a retry passes iff the rest has gone by, so a second later always, and exactly on time iff nothing was rounded off |
| `RateLimit.RetryCanBeEarly` | crates/peryx-driver/src/rate_limit.rs:209-216 | a client that waits exactly as long as it was told is denied again: a concrete run |
| `Forwarded.ScanForwarded` | crates/peryx-driver/src/rate_limit.rs:537-574 | the left-to-right two-variable scan equals the right-to-left rule for every list of header values |
| `Forwarded.FeedReads` | crates/peryx-driver/src/rate_limit.rs:545-566 | one hop moves the scan as the rule would read it from the right |
| `Forwarded.ClientCannotForge` | crates/peryx-driver/src/rate_limit.rs:537-574 | nothing left of the hop the first trusted proxy appended changes the answer |
| `Forwarded.ClientIp` | crates/peryx-driver/src/rate_limit.rs:524-535 | an untrusted peer speaks for itself; a trusted one for whom the forwarded values name, or without any for the one parsable real address, or itself |
| `Forwarded.ValueOfParts` | crates/peryx-driver/src/rate_limit.rs:555-566 | a header value is its comma-separated parts in order, an address where a part parses and malformed where not |
| `Forwarded.LinesJoin` | crates/peryx-driver/src/rate_limit.rs:549-566 | two adjacent header lines read as one line joined by a comma |
| `UsageTree.ApplyAllConserves` | crates/peryx-events/src/metrics.rs:634-729 | after any events every index counter is the sum over its projects, and downloads and bytes of a project the sums over its files |
| `UsageTree.ApplyConserves` | crates/peryx-events/src/metrics.rs:634-729 | one event keeps that |
| `UsageTree.TotalsTallyEvents` | crates/peryx-events/src/metrics.rs:634-729 | every counter that is kept per scope is, at every level, the tally of the events about it, counted off the events alone |
| `UsageTree.CatalogTallies` | crates/peryx-events/src/metrics.rs:707-729 | the catalog counters of an index are the tallies of its syncs by outcome, and its project count is that of the last sync that told one |
| `UsageTree.SnapshotDownloads` | crates/peryx-events/src/metrics.rs:601-617 | lists every file of the tree once with its usage |
| `UsageTree.RestoreAdds` | crates/peryx-events/src/metrics.rs:620-632 | restoring adds to every counter of every index, project and file exactly what the rows list for it, repeated rows included |
| `UsageTree.RestoreKeepsSyncs` | crates/peryx-events/src/metrics.rs:620-632 | restoring leaves the catalog counters of every index alone |
| `UsageTree.RestoreConserves` | crates/peryx-events/src/metrics.rs:620-632 | restoring keeps conservation, whatever the rows |
| `UsageTree.SnapshotListsUsage` | crates/peryx-events/src/metrics.rs:601-617 | a snapshot lists the usage of every file |
| `UsageTree.OtherEventsKeepUsage` | crates/peryx-events/src/metrics.rs:634-729 | events other than downloads change no file's usage, so an older snapshot still lists it |
| `UsageTree.RestoreReproduces` | crates/peryx-events/src/metrics.rs:601-632 | restoring rows that list a tree's usage reproduces every download and byte total at file, project and index level |
| `DailyUsage.ExpireIsByDay` | crates/peryx-events/src/metrics.rs:550-559 | splitting the ordered buckets at the floor key keeps exactly the buckets at most `retention` days old, untouched |
| `DailyUsage.FoldTallies` | crates/peryx-events/src/metrics.rs:525-546 | folding downloads into any buckets adds to each the tally of the downloads of its day, project, version and source |
| `DailyUsage.FoldMakesBuckets` | crates/peryx-events/src/metrics.rs:525-546 | afterwards there is a bucket only where there was one or some download belongs |
| `DailyUsage.BatchExact` | crates/peryx-events/src/metrics.rs:477-559 | one batch, bucket by bucket: nothing without a download; otherwise exactly the old and new buckets within retention, each with what it had and what the batch adds |
| `DailyUsage.EarlierExpiryIsAbsorbed` | crates/peryx-events/src/metrics.rs:550-559 | an expiry followed by one no earlier-dated changes nothing in the end, whatever is folded in between |
| `DailyUsage.BatchingIsOrderSafe` | crates/peryx-events/src/metrics.rs:477-559 | for any split into batches, with restarts anywhere, expiring at every step gives the buckets of one fold of the kept downloads and one expiry at the last expiring step |
| `DailyUsage.SplitsAgree` | crates/peryx-events/src/metrics.rs:477-521 | two splits of the same downloads with the same last expiry end in the same buckets |
| `DailyUsage.UnlimitedRunIsOneFold` | crates/peryx-events/src/metrics.rs:477-521 | without retention a run is one fold of its downloads |
| `DailyUsage.DailyRows` | crates/peryx-events/src/metrics.rs:561-574 | lists every bucket once with its totals |
| `DailyUsage.RestoreDailyRoundTrip` | crates/peryx-events/src/metrics.rs:576-598 | restoring the rows of a snapshot, in any order, gives the buckets back |
| `DailyUsage.RestartRestores` | crates/peryx-events/src/metrics.rs:333-364 | a start from the saved rows is the restart step of a run |
| `DailyUsage.SavedIsEnough` | crates/peryx-events/src/metrics.rs:504-518 | saving buckets only after a batch with a download loses nothing: across any restarts the live buckets are those of the run |
| `DailyUsage.StepListsUsage` | crates/peryx-events/src/metrics.rs:487-503 | the snapshot saved after the last batch with a download lists the live tree's usage, whatever other events came since |
| `DailyUsage.BucketsSumToTree` | crates/peryx-events/src/metrics.rs:477-559 | without retention, after any batches, restarts and stops between the two saves, each project's live buckets sum to its totals in the tree less exactly the downloads of the stopped batches, and the tree conserves |
| `DailyUsage.NothingMissingIff` | crates/peryx-events/src/metrics.rs:501-518 | nothing is missing for a project iff no stopped batch held a download of it |
| `Aggregator.State.constructor` | crates/peryx-events/src/metrics.rs:333-364 | a start restores both snapshots, then expires |
| `Aggregator.State.RestoreDownloads` | crates/peryx-events/src/metrics.rs:620-632 | the in-place loop computes the specified restored tree |
| `Aggregator.State.FoldDaily` | crates/peryx-events/src/metrics.rs:584-598 | the in-place fold adds rows that share a key |
| `Aggregator.State.ApplyEvent` | crates/peryx-events/src/metrics.rs:634-729 | the arms of apply, one by one, compute the specified tree |
| `Aggregator.State.Aggregate` | crates/peryx-events/src/metrics.rs:477-521 | one drain of the queue: tree, then buckets, expiring only if it held a download |

## Left out

- HTTP, TLS, JSON, multipart, routing, discovery documents and rendering: plumbing over libraries.
- Signatures, key parsing, password hashing and content hashing: parameters of the model.
- The search engine's own evaluation of the emitted globs: a hit is visible when an emitted glob matches under the shared semantics.
- `authorize_all`, exact registry grants, role tables, the upload-token shorthand, `service_route_class` and `valid_content_digest`: short case analyses.
- `Basic` header parsing and the constant-time comparison of secrets: a credential arrives parsed and secrets are compared as values.
- Store faults: an operation on the driver store always succeeds. In the mirror the one fault that ends a run is an oversized body.
- Transactions: a group of writes that commits at once is a sequence of writes whose end state is stated; what a concurrent reader may see in between is not.
- Key constructors are modelled for index, repository, tag and referrer text without NUL; a subject and a last field that is only read as the rest of a key may hold anything. For a subject with NUL, the referenced set and the unlinking are stated for what `SplitReferrerKey` reads back, the part after its last NUL, not for the subject itself.
- Values of referrer records and their listing: only the keys and their scan are modelled.
- `JoinName`, `ClassifySegments` and `Classify` are ghost functions: the grammar they use is the one the verified loop of `ValidNameComponent` decides.
- MirrorVerify.SyncThenVerify: one direction only; an over-long media type can also read back as something Verify accepts, so a clean Verify does not say that the records read back.
- Saves that fail: a snapshot is taken as saved whenever the aggregator saves it.
- Report texts, upstream repository spelling and the bytes column of blob rows beyond the size the transfer reported.
- Grant qualification by repository, token minting and the issuer's HTTP fetches in the exchange; a fetch is its outcome and the advertised ages.
- RateLimit.RateLimiter.CheckRequest: takes the check that creates a bucket to be the first to lock it; another check that locks it in between starts no window of its own.
- Eviction of idle rate-limit buckets, semaphores and thread scheduling beyond the named atomic steps.
- Overflow of 64-bit counters and instants, except where the source checks it (the identity lifetime, the codecs' length fields).
- The order of `daily_usage` rows, `top_packages`, `drill` and the persistence of snapshots: rows are stated as a listing in any order.
- PyPI catalog publishing, purge, benchmarks and site scripts.
