/** How the OCI driver packs its records into one string-keyed store: key layout, prefix scans and value codecs
    (crates/peryx-ecosystem-oci/src/store.rs). */
module OciKeys {
  import opened Common

  const NUL: char := '\0'

  /** The records of the driver, one constructor per namespace. */
  datatype Key =
    | ManifestKey(digest: string)
    | TagKey(index: string, repo: string, tag: string)
    | FreshKey(index: string, repo: string, tag: string)
    | PageKey(index: string, repo: string, query: string)
    | MemberKey(index: string, repo: string, digest: string)
    | BlobMemberKey(index: string, repo: string, digest: string)
    | ReferrerKey(index: string, repo: string, subject: string, referrer: string)

  /** Two fields and the separator between them. */
  function Cut(a: string, b: string): string { a + [NUL] + b }

  function Namespace(k: Key): string {
    match k
    case ManifestKey(_) => "m"
    case TagKey(_, _, _) => "t"
    case FreshKey(_, _, _) => "tf"
    case PageKey(_, _, _) => "tp"
    case MemberKey(_, _, _) => "mm"
    case BlobMemberKey(_, _, _) => "bm"
    case ReferrerKey(_, _, _, _) => "r"
  }

  function Fields(k: Key): string {
    match k
    case ManifestKey(digest) => digest
    case TagKey(index, repo, tag) => Cut(index, Cut(repo, tag))
    case FreshKey(index, repo, tag) => Cut(index, Cut(repo, tag))
    case PageKey(index, repo, query) => Cut(index, Cut(repo, query))
    case MemberKey(index, repo, digest) => Cut(index, Cut(repo, digest))
    case BlobMemberKey(index, repo, digest) => Cut(index, Cut(repo, digest))
    case ReferrerKey(index, repo, subject, referrer) => Cut(index, Cut(repo, Cut(subject, referrer)))
  }

  /** Every key and every scan prefix has this shape. */
  function Spell(namespace: string, fields: string): string { Cut("oci", Cut(namespace, fields)) }

  function Encode(k: Key): string { Spell(Namespace(k), Fields(k)) }

  /** The layout, key by key: the driver's own name, the namespace and the fields, NUL between them. */
  lemma LayoutSpells(k: Key)
    ensures Encode(k) == "oci" + [NUL] +
      match k
      case ManifestKey(digest) => "m" + [NUL] + digest
      case TagKey(index, repo, tag) => "t" + [NUL] + (index + [NUL] + (repo + [NUL] + tag))
      case FreshKey(index, repo, tag) => "tf" + [NUL] + (index + [NUL] + (repo + [NUL] + tag))
      case PageKey(index, repo, query) => "tp" + [NUL] + (index + [NUL] + (repo + [NUL] + query))
      case MemberKey(index, repo, digest) => "mm" + [NUL] + (index + [NUL] + (repo + [NUL] + digest))
      case BlobMemberKey(index, repo, digest) => "bm" + [NUL] + (index + [NUL] + (repo + [NUL] + digest))
      case ReferrerKey(index, repo, subject, referrer) =>
        "r" + [NUL] + (index + [NUL] + (repo + [NUL] + (subject + [NUL] + referrer)))
  {
  }

  ghost predicate NulFree(s: string) { NUL !in s }

  /** The fields a reader must find again are free of the separator. A last field that is only ever read as "the
      rest of the key" may hold anything, and so may a subject, which comes out of pushed JSON unchecked. */
  ghost predicate WellFormed(k: Key) {
    match k
    case ManifestKey(_) => true
    case TagKey(index, repo, tag) => NulFree(index) && NulFree(repo) && NulFree(tag)
    case FreshKey(index, repo, _) => NulFree(index) && NulFree(repo)
    case PageKey(index, repo, _) => NulFree(index) && NulFree(repo)
    case MemberKey(index, repo, _) => NulFree(index) && NulFree(repo)
    case BlobMemberKey(index, repo, _) => NulFree(index) && NulFree(repo)
    case ReferrerKey(index, repo, _, referrer) => NulFree(index) && NulFree(repo) && NulFree(referrer)
  }

  /** A separator-free field is read back from the front of a key, prefix or not. */
  lemma CutPrefix(a: string, b: string, x: string, y: string)
    requires NulFree(a) && NulFree(x)
    ensures Cut(a, b) <= Cut(x, y) <==> a == x && b <= y
  {
    var p, q := Cut(a, b), Cut(x, y);
    assert p[|a|] == NUL && forall i :: 0 <= i < |a| ==> p[i] == a[i] != NUL;
    assert q[|x|] == NUL && forall i :: 0 <= i < |x| ==> q[i] == x[i] != NUL;
    if p <= q {
      assert |a| == |x|;
      assert a == p[..|a|] == q[..|a|] == x;
      forall i | 0 <= i < |b| ensures i < |y| && b[i] == y[i] {
        assert p[|a| + 1 + i] == q[|a| + 1 + i];
      }
    }
  }

  lemma CutInjective(a: string, b: string, x: string, y: string)
    requires NulFree(a) && NulFree(x)
    ensures Cut(a, b) == Cut(x, y) <==> a == x && b == y
  {
    CutPrefix(a, b, x, y);
    CutPrefix(x, y, a, b);
  }

  lemma SpellPrefix(n: string, f: string, k: Key)
    requires NulFree(n)
    ensures Spell(n, f) <= Encode(k) <==> n == Namespace(k) && f <= Fields(k)
  {
    CutPrefix("oci", Cut(n, f), "oci", Cut(Namespace(k), Fields(k)));
    CutPrefix(n, f, Namespace(k), Fields(k));
  }

  /** The key constructors are injective across all namespaces. */
  lemma EncodeInjective(k: Key, l: Key)
    requires WellFormed(k) && WellFormed(l) && Encode(k) == Encode(l)
    ensures k == l
  {
    CutInjective("oci", Cut(Namespace(k), Fields(k)), "oci", Cut(Namespace(l), Fields(l)));
    CutInjective(Namespace(k), Fields(k), Namespace(l), Fields(l));
    if !k.ManifestKey? {
      var f, g := Rest(k), Rest(l);
      CutInjective(k.index, Cut(k.repo, f), l.index, Cut(l.repo, g));
      CutInjective(k.repo, f, l.repo, g);
      if k.ReferrerKey? { LastCut(k.subject, k.referrer, l.subject, l.referrer); }
    }
  }

  /** What follows index and repository. */
  function Rest(k: Key): string
    requires !k.ManifestKey?
    ensures Fields(k) == Cut(k.index, Cut(k.repo, Rest(k)))
  {
    match k
    case TagKey(_, _, tag) => tag
    case FreshKey(_, _, tag) => tag
    case PageKey(_, _, query) => query
    case MemberKey(_, _, digest) => digest
    case BlobMemberKey(_, _, digest) => digest
    case ReferrerKey(_, _, subject, referrer) => Cut(subject, referrer)
  }

  // ----- Prefix scans -----

  const ALL_TAGS := Spell("t", "")
  const ALL_MANIFESTS := Spell("m", "")
  const ALL_REFERRERS := Spell("r", "")
  function IndexTags(index: string): string { Spell("t", Cut(index, "")) }
  function RepoTags(index: string, repo: string): string { Spell("t", Cut(index, Cut(repo, ""))) }
  function RepoMembers(index: string, repo: string): string { Spell("mm", Cut(index, Cut(repo, ""))) }
  function RepoReferrers(index: string, repo: string): string { Spell("r", Cut(index, Cut(repo, ""))) }
  function SubjectReferrers(index: string, repo: string, subject: string): string {
    Spell("r", Cut(index, Cut(repo, Cut(subject, ""))))
  }

  /** A whole-namespace scan sees that namespace and no other. */
  lemma ScanNamespace(k: Key)
    ensures ALL_TAGS <= Encode(k) <==> k.TagKey?
    ensures ALL_MANIFESTS <= Encode(k) <==> k.ManifestKey?
    ensures ALL_REFERRERS <= Encode(k) <==> k.ReferrerKey?
  {
    SpellPrefix("t", "", k);
    SpellPrefix("m", "", k);
    SpellPrefix("r", "", k);
  }

  /** A repository scan sees exactly that repository's records of that kind. */
  lemma ScanRepo(k: Key, index: string, repo: string)
    requires WellFormed(k) && NulFree(index) && NulFree(repo)
    ensures IndexTags(index) <= Encode(k) <==> k.TagKey? && k.index == index
    ensures RepoTags(index, repo) <= Encode(k) <==> k.TagKey? && k.index == index && k.repo == repo
    ensures RepoMembers(index, repo) <= Encode(k) <==> k.MemberKey? && k.index == index && k.repo == repo
    ensures RepoReferrers(index, repo) <= Encode(k) <==> k.ReferrerKey? && k.index == index && k.repo == repo
  {
    assert IndexTags(index) <= Encode(k) <==> k.TagKey? && k.index == index by {
      SpellPrefix("t", Cut(index, ""), k);
      if k.TagKey? { CutPrefix(index, "", k.index, Cut(k.repo, Rest(k))); }
    }
    RepoPrefix("t", index, repo, k);
    RepoPrefix("mm", index, repo, k);
    RepoPrefix("r", index, repo, k);
  }

  lemma RepoPrefix(n: string, index: string, repo: string, k: Key)
    requires WellFormed(k) && NulFree(n) && NulFree(index) && NulFree(repo) && n != "m"
    ensures Spell(n, Cut(index, Cut(repo, ""))) <= Encode(k) <==>
            !k.ManifestKey? && n == Namespace(k) && k.index == index && k.repo == repo
  {
    SpellPrefix(n, Cut(index, Cut(repo, "")), k);
    if !k.ManifestKey? {
      CutPrefix(index, Cut(repo, ""), k.index, Cut(k.repo, Rest(k)));
      CutPrefix(repo, "", k.repo, Rest(k));
    }
  }

  /** A referrers query sees the records of that subject, and beyond them only records whose subject holds a separator
      right after it. */
  lemma ScanSubject(k: Key, index: string, repo: string, subject: string)
    requires WellFormed(k) && NulFree(index) && NulFree(repo) && NulFree(subject)
    ensures SubjectReferrers(index, repo, subject) <= Encode(k) <==>
            k.ReferrerKey? && k.index == index && k.repo == repo && (k.subject == subject || Cut(subject, "") <= k.subject)
  {
    SpellPrefix("r", Cut(index, Cut(repo, Cut(subject, ""))), k);
    if k.ReferrerKey? {
      CutPrefix(index, Cut(repo, Cut(subject, "")), k.index, Cut(k.repo, Rest(k)));
      CutPrefix(repo, Cut(subject, ""), k.repo, Rest(k));
      SubjectPrefix(subject, k.subject, k.referrer);
    }
  }

  lemma SubjectPrefix(subject: string, held: string, referrer: string)
    requires NulFree(subject)
    ensures Cut(subject, "") <= Cut(held, referrer) <==> held == subject || Cut(subject, "") <= held
  {
    var p, q := Cut(subject, ""), Cut(held, referrer);
    assert p[|subject|] == NUL && q[|held|] == NUL && q[..|held|] == held;
    if p <= q {
      if |held| < |subject| {
        assert false;
      } else if |held| == |subject| {
        assert held == q[..|held|] == p[..|subject|] == subject;
      } else {
        assert p == q[..|p|] == held[..|p|];
      }
    }
    if held == subject { assert q == p + referrer; }
    if p <= held { assert q[..|p|] == held[..|p|] == p; }
  }

  /** Stripping the scan prefix leaves the last field. */
  lemma StripRepo(index: string, repo: string, rest: string)
    ensures Spell("t", Cut(index, Cut(repo, rest))) == RepoTags(index, repo) + rest
    ensures Spell("mm", Cut(index, Cut(repo, rest))) == RepoMembers(index, repo) + rest
    ensures Spell("t", Cut(index, Cut(repo, rest))) == IndexTags(index) + Cut(repo, rest)
  {
    assert Cut(repo, rest) == Cut(repo, "") + rest;
    assert Cut(index, Cut(repo, rest)) == Cut(index, Cut(repo, "")) + rest == Cut(index, "") + Cut(repo, rest);
  }

  lemma StripReferrer(index: string, repo: string, rest: string)
    ensures Spell("r", Cut(index, Cut(repo, rest))) == RepoReferrers(index, repo) + rest
  {
    assert Cut(repo, rest) == Cut(repo, "") + rest;
    assert Cut(index, Cut(repo, rest)) == Cut(index, Cut(repo, "")) + rest;
  }

  /** The (subject, referrer) digests a referrer key carries: its last two fields. */
  function SplitReferrerKey(key: string): Option<(string, string)> {
    match RSplitOnce(key, NUL)
    case None => None
    case Some(outer) =>
      match RSplitOnce(outer.0, NUL)
      case None => None
      case Some(inner) => Some((inner.1, outer.1))
  }

  /** A separator-free last field is read back from the end of a key. */
  lemma RSplitCut(a: string, b: string)
    requires NulFree(b)
    ensures RSplitOnce(Cut(a, b), NUL) == Some((a, b))
  {
    RSplitOnceAt(a, NUL, b);
  }

  lemma LastCut(a: string, b: string, x: string, y: string)
    requires Cut(a, b) == Cut(x, y) && NulFree(b) && NulFree(y)
    ensures a == x && b == y
  {
    RSplitCut(a, b);
    RSplitCut(x, y);
  }

  /** The subject a referrer key reads back as: what follows the last separator in it. */
  function SubjectRead(subject: string): (read: string)
    ensures NulFree(read) && (NulFree(subject) ==> read == subject)
    ensures read == subject || exists before :: subject == Cut(before, read)
  {
    match RSplitOnce(subject, NUL)
    case None => subject
    case Some(parts) =>
      assert subject == Cut(parts.0, parts.1);
      parts.1
  }

  /** The last two fields of a referrer key are its referrer and the subject it reads back as, which is the subject
      itself exactly when that is free of the separator. */
  lemma SplitReferrerExact(index: string, repo: string, subject: string, referrer: string)
    requires NulFree(referrer)
    ensures SplitReferrerKey(Encode(ReferrerKey(index, repo, subject, referrer))) == Some((SubjectRead(subject), referrer))
    ensures SubjectRead(subject) == subject <==> NulFree(subject)
  {
    var front := ReferrerFront(index, repo);
    assert Encode(ReferrerKey(index, repo, subject, referrer)) == Cut(Cut(front, subject), referrer);
    RSplitCut(Cut(front, subject), referrer);
    RSplitSubject(front, subject);
  }

  /** Everything before the subject and its separator. */
  function ReferrerFront(index: string, repo: string): string { Spell("r", Cut(index, repo)) }

  lemma CutAssociates(a: string, b: string, c: string)
    ensures Cut(a, Cut(b, c)) == Cut(Cut(a, b), c)
  {
  }

  lemma RSplitSubject(front: string, subject: string)
    ensures RSplitOnce(Cut(front, subject), NUL).Some? && RSplitOnce(Cut(front, subject), NUL).value.1 == SubjectRead(subject)
  {
    if NulFree(subject) {
      RSplitCut(front, subject);
    } else {
      var parts := RSplitOnce(subject, NUL).value;
      CutAssociates(front, parts.0, parts.1);
      RSplitCut(Cut(front, parts.0), parts.1);
    }
  }

  // ----- Value codecs -----

  function Pow256(w: nat): nat { if w == 0 then 1 else 256 * Pow256(w - 1) }

  /** `n` in `w` bytes, most significant first. */
  function ToBytes(n: nat, w: nat): (s: string)
    ensures |s| == w
  {
    if w == 0 then "" else ToBytes(n / 256, w - 1) + [(n % 256) as char]
  }

  /** The number those bytes spell; a `char` stands for its low eight bits. */
  function FromBytes(s: string): nat {
    if s == "" then 0 else 256 * FromBytes(s[..|s| - 1]) + s[|s| - 1] as int % 256
  }

  lemma {:induction false} BytesRoundTrip(n: nat, w: nat)
    requires n < Pow256(w)
    ensures FromBytes(ToBytes(n, w)) == n
    decreases w
  {
    if w > 0 {
      BytesRoundTrip(n / 256, w - 1);
      assert ToBytes(n, w)[..w - 1] == ToBytes(n / 256, w - 1);
    }
  }

  /** Big-endian: byte `i` from the front weighs 256 to the number of bytes after it. */
  lemma {:induction false} MostSignificantFirst(n: nat, w: nat, i: nat)
    requires i < w
    ensures ToBytes(n, w)[w - 1 - i] as int == Shifted(n, i) % 256
    decreases w
  {
    if i > 0 { MostSignificantFirst(n / 256, w - 1, i - 1); }
  }

  /** `n` without its last `i` bytes. */
  function Shifted(n: nat, i: nat): nat { if i == 0 then n else Shifted(n / 256, i - 1) }

  /** A stored manifest: its media type and the bytes whose digest addresses it. */
  datatype Manifest = Manifest(mediaType: Text, bytes: string)

  const MAX_U16 := 0xFFFF
  const MAX_U32 := 0xFFFF_FFFF

  /** A two-byte media-type length, saturated, then the media type and the body. */
  function EncodeManifest(m: Manifest): string {
    ToBytes(if |m.mediaType| <= MAX_U16 then |m.mediaType| else MAX_U16, 2) + m.mediaType + m.bytes
  }

  function DecodeManifest(raw: string): Option<Manifest> {
    if |raw| < 2 then None else DecodeRest(FromBytes(raw[..2]), raw[2..])
  }

  function DecodeRest(length: nat, rest: string): Option<Manifest> {
    if |rest| < length then None else WithMediaType(rest[..length], rest[length..])
  }

  /** A media type that is not text makes the record unreadable. */
  function WithMediaType(mediaType: string, bytes: string): Option<Manifest> {
    if ValidUtf8(mediaType) then Some(Manifest(mediaType, bytes)) else None
  }

  /** The codec round-trips exactly the manifests whose media type fits its length prefix. */
  lemma ManifestRoundTrip(m: Manifest)
    ensures DecodeManifest(EncodeManifest(m)) == Some(m) <==> |m.mediaType| <= MAX_U16
  {
    var n := if |m.mediaType| <= MAX_U16 then |m.mediaType| else MAX_U16;
    BytesRoundTrip(n, 2);
    assert EncodeManifest(m) == ToBytes(n, 2) + (m.mediaType + m.bytes);
    ManifestRest(m.mediaType, m.bytes, n);
  }

  /** What decoding yields, for any record: the text and the body that its two-byte length divides it into; nothing if it is
      shorter than it says or the text is not text. */
  lemma DecodeExact(raw: string, m: Manifest)
    ensures DecodeManifest(raw) == Some(m) <==>
      |raw| >= 2 && raw[2..] == m.mediaType + m.bytes && FromBytes(raw[..2]) == |m.mediaType|
    ensures DecodeManifest(raw).None? <==>
      |raw| < 2 || |raw| - 2 < FromBytes(raw[..2]) || !ValidUtf8(raw[2..FromBytes(raw[..2]) + 2])
  {
    if |raw| >= 2 {
      var n, rest := FromBytes(raw[..2]), raw[2..];
      if n <= |rest| {
        assert rest == rest[..n] + rest[n..] && raw[2..n + 2] == rest[..n];
      }
    }
  }

  /** A longer media type is cut at the length prefix: what is cut off reads back as the front of the body, unless the
      cut splits a character and the record is unreadable. */
  lemma OverlongReadsBack(head: string, tail: string, body: string)
    requires |head| == MAX_U16 && ValidUtf8(head + tail)
    ensures DecodeManifest(EncodeManifest(Manifest(head + tail, body))) == WithMediaType(head, tail + body)
  {
    var media := head + tail;
    BytesRoundTrip(MAX_U16, 2);
    assert EncodeManifest(Manifest(media, body)) == ToBytes(MAX_U16, 2) + (media + body);
    ManifestRest(media, body, MAX_U16);
  }

  /** A stored record reads back as its own bytes exactly when its media type fits the length prefix. */
  lemma BytesReadBack(m: Manifest)
    ensures var read := DecodeManifest(EncodeManifest(m)); read.Some? && read.value.bytes == m.bytes <==> |m.mediaType| <= MAX_U16
  {
    ManifestRoundTrip(m);
    if |m.mediaType| > MAX_U16 {
      var head, tail := m.mediaType[..MAX_U16], m.mediaType[MAX_U16..];
      assert m.mediaType == head + tail;
      OverlongReadsBack(head, tail, m.bytes);
      assert |tail + m.bytes| > |m.bytes|;
    }
  }

  lemma ManifestRest(mediaType: string, bytes: string, n: nat)
    requires n <= |mediaType|
    ensures DecodeRest(n, mediaType + bytes) == WithMediaType(mediaType[..n], mediaType[n..] + bytes)
    ensures n == |mediaType| ==> mediaType[..n] == mediaType && mediaType[n..] + bytes == bytes
  {
    CutAt(mediaType, bytes, n);
  }

  /** Cutting inside the first of two parts. */
  lemma CutAt(a: string, b: string, n: nat)
    requires n <= |a|
    ensures (a + b)[..n] == a[..n] && (a + b)[n..] == a[n..] + b
  {
  }

  /** A 64-bit signed instant as its two's-complement bits. */
  function Bits64(at: i64): nat { if at >= 0 then at else at + 0x1_0000_0000_0000_0000 }
  function Signed64(bits: nat): i64 {
    var b := bits % 0x1_0000_0000_0000_0000;
    if b < 0x8000_0000_0000_0000 then b else b - 0x1_0000_0000_0000_0000
  }

  function EncodeInstant(at: i64): string { ToBytes(Bits64(at), 8) }

  lemma InstantRoundTrip(at: i64)
    ensures Signed64(FromBytes(EncodeInstant(at))) == at
  {
    var bits := Bits64(at);
    assert bits < Pow256(8);
    BytesRoundTrip(bits, 8);
  }

  /** An upstream tag-list page: fetch time, `Link` header and body. */
  datatype TagPage = TagPage(at: i64, link: Option<string>, body: string)

  function LinkText(link: Option<string>): string { if link.None? then "" else link.value }

  function EncodePage(p: TagPage): string {
    var link := LinkText(p.link);
    EncodeInstant(p.at) + ToBytes(if |link| <= MAX_U32 then |link| else MAX_U32, 4) + link + p.body
  }

  function DecodePage(raw: string): Option<TagPage> {
    if |raw| < 12 then None
    else
      var length, rest := FromBytes(raw[8..12]), raw[12..];
      if |rest| < length then None
      else Some(TagPage(Signed64(FromBytes(raw[..8])), if length == 0 then None else Some(rest[..length]), rest[length..]))
  }

  /** A page reads back as written exactly when its link is not an empty header and fits the length prefix. */
  lemma PageRoundTrip(p: TagPage)
    ensures DecodePage(EncodePage(p)) == Some(p) <==> p.link != Some("") && |LinkText(p.link)| <= MAX_U32
  {
    InstantRoundTrip(p.at);
    var link := LinkText(p.link);
    var n := if |link| <= MAX_U32 then |link| else MAX_U32;
    BytesRoundTrip(n, 4);
    PageParts(EncodeInstant(p.at), ToBytes(n, 4), link, p.body);
  }

  /** The decoder finds the four parts again. */
  lemma PageParts(at: string, length: string, link: string, body: string)
    requires |at| == 8 && |length| == 4 && FromBytes(length) <= |link|
    ensures DecodePage(at + length + link + body) ==
      (var n := FromBytes(length);
       Some(TagPage(Signed64(FromBytes(at)), if n == 0 then None else Some(link[..n]), link[n..] + body)))
    ensures link[..|link|] == link && link[|link|..] + body == body
  {
    var raw := at + length + link + body;
    assert raw[..8] == at && raw[8..12] == length && raw[12..] == link + body;
    CutAt(link, body, FromBytes(length));
  }

  /** What decoding yields, for any record: the instant, and the link and the body that the four-byte length divides the rest
      into, no link where that is zero; nothing if the record is shorter than it says. */
  lemma DecodePageExact(raw: string, p: TagPage)
    ensures DecodePage(raw) == Some(p) <==>
      && |raw| >= 12 && p.at == Signed64(FromBytes(raw[..8])) && p.link != Some("")
      && raw[12..] == LinkText(p.link) + p.body && FromBytes(raw[8..12]) == |LinkText(p.link)|
    ensures DecodePage(raw).None? <==> |raw| < 12 || |raw| - 12 < FromBytes(raw[8..12])
  {
    if |raw| >= 12 {
      var n, rest := FromBytes(raw[8..12]), raw[12..];
      if n <= |rest| { assert rest == rest[..n] + rest[n..]; }
    }
  }

  /** A tag's last revalidation: when, and to which digest. */
  function EncodeFresh(at: i64, digest: string): string { EncodeInstant(at) + digest }

  function DecodeFresh(raw: string): Option<(int, string)> {
    if |raw| < 8 || !ValidUtf8(raw[8..]) then None else Some((Signed64(FromBytes(raw[..8])), raw[8..]))
  }

  lemma FreshRoundTrip(at: i64, digest: string)
    ensures DecodeFresh(EncodeFresh(at, digest)) == if ValidUtf8(digest) then Some((at, digest)) else None
  {
    InstantRoundTrip(at);
    var raw := EncodeFresh(at, digest);
    assert raw[..8] == EncodeInstant(at) && raw[8..] == digest;
  }

  lemma DecodeFreshExact(raw: string, at: int, digest: string)
    ensures DecodeFresh(raw) == Some((at, digest)) <==>
      |raw| >= 8 && at == Signed64(FromBytes(raw[..8])) && digest == raw[8..] && ValidUtf8(digest)
    ensures DecodeFresh(raw).None? <==> |raw| < 8 || !ValidUtf8(raw[8..])
  {
  }

  /** An instant's eight bytes stand for it in two's complement. */
  lemma TwosComplement(at: i64)
    ensures FromBytes(EncodeInstant(at)) == if at >= 0 then at else 0x1_0000_0000_0000_0000 + at
  {
    BytesRoundTrip(Bits64(at), 8);
  }
}
