/** The usage tree: one event applied at every level, conservation between the levels, and the download snapshot
    (crates/peryx-events/src/metrics.rs). */
module UsageTree {
  import opened Common

  datatype CatalogOutcome = Published | NotModified | SyncError

  datatype Event =
    | Page(route: string, project: string)
    | Download(route: string, project: string, filename: string, version: Option<string>, source: Option<string>, bytes: nat)
    | Ecosystem(route: string, project: string, file: Option<string>, family: string)
    | Upload(route: string, project: string)
    | Refresh(route: string, project: string, changed: bool)
    | StaleServed(route: string, project: string)
    | UpstreamError(route: string, project: string)
    | BlobRejected(route: string, project: string)
    | CatalogSync(route: string, outcome: CatalogOutcome, projects: Option<nat>)

  type Families = map<string, nat>

  /** The counters of one index or project, grouped as in the source: base, cached, hosted, ecosystem. */
  datatype Counters = Counters(
    pages: nat, downloads: nat, bytes: nat, rejected: nat,
    refreshes: nat, changed: nat, staleServed: nat, upstreamErrors: nat,
    catalogSyncs: nat, catalogPublished: nat, catalogNotModified: nat, catalogErrors: nat, catalogProjects: nat,
    uploads: nat,
    ecosystem: Families)

  const ZERO := Counters(0, 0, 0, 0, 0, 0, 0, 0, 0, 0, 0, 0, 0, 0, map[])

  datatype FileStats = FileStats(downloads: nat, bytes: nat, ecosystem: Families)
  datatype ProjectStats = ProjectStats(totals: Counters, files: map<string, FileStats>)
  datatype IndexStats = IndexStats(totals: Counters, projects: map<string, ProjectStats>)
  type Tree = map<string, IndexStats>

  const NO_FILE := FileStats(0, 0, map[])
  const NO_PROJECT := ProjectStats(ZERO, map[])
  const NO_INDEX := IndexStats(ZERO, map[])

  function IndexAt(t: Tree, route: string): IndexStats { if route in t then t[route] else NO_INDEX }
  function ProjectAt(i: IndexStats, project: string): ProjectStats { if project in i.projects then i.projects[project] else NO_PROJECT }
  function FileAt(p: ProjectStats, file: string): FileStats { if file in p.files then p.files[file] else NO_FILE }
  function FamilyAt(f: Families, family: string): nat { if family in f then f[family] else 0 }
  function Bumped(f: Families, family: string): Families { f[family := FamilyAt(f, family) + 1] }

  /** What an event adds to the totals of its index, and equally of its project. */
  function Count(c: Counters, e: Event): Counters {
    match e
    case Page(_, _) => c.(pages := c.pages + 1)
    case Download(_, _, _, _, _, bytes) => c.(downloads := c.downloads + 1, bytes := c.bytes + bytes)
    case Ecosystem(_, _, _, family) => c.(ecosystem := Bumped(c.ecosystem, family))
    case Upload(_, _) => c.(uploads := c.uploads + 1)
    case Refresh(_, _, changed) => c.(refreshes := c.refreshes + 1, changed := c.changed + if changed then 1 else 0)
    case StaleServed(_, _) => c.(staleServed := c.staleServed + 1)
    case UpstreamError(_, _) => c.(upstreamErrors := c.upstreamErrors + 1)
    case BlobRejected(_, _) => c.(rejected := c.rejected + 1)
    case CatalogSync(_, outcome, projects) =>
      var synced := c.(catalogSyncs := c.catalogSyncs + 1,
                       catalogPublished := c.catalogPublished + (if outcome == Published then 1 else 0),
                       catalogNotModified := c.catalogNotModified + (if outcome == NotModified then 1 else 0),
                       catalogErrors := c.catalogErrors + if outcome == SyncError then 1 else 0);
      if projects.Some? then synced.(catalogProjects := projects.value) else synced
  }

  /** A download, and an ecosystem observation about one artifact, also reach the file. */
  function CountFile(p: ProjectStats, e: Event): map<string, FileStats> {
    match e
    case Download(_, _, filename, _, _, bytes) =>
      var f := FileAt(p, filename);
      p.files[filename := f.(downloads := f.downloads + 1, bytes := f.bytes + bytes)]
    case Ecosystem(_, _, Some(filename), family) =>
      var f := FileAt(p, filename);
      p.files[filename := f.(ecosystem := Bumped(f.ecosystem, family))]
    case _ => p.files
  }

  function Apply(t: Tree, e: Event): Tree {
    var index := IndexAt(t, e.route);
    if e.CatalogSync? then t[e.route := index.(totals := Count(index.totals, e))]
    else
      var project := ProjectAt(index, e.project);
      var counted := ProjectStats(Count(project.totals, e), CountFile(project, e));
      t[e.route := IndexStats(Count(index.totals, e), index.projects[e.project := counted])]
  }

  function ApplyAll(t: Tree, events: seq<Event>): Tree
    decreases |events|
  {
    if events == [] then t else Apply(ApplyAll(t, events[..|events| - 1]), events[|events| - 1])
  }

  // ----- Sums over maps -----

  ghost function Sum<K(!new)>(m: map<K, nat>): nat {
    if m == map[] then 0 else var k :| k in m; m[k] + Sum(m - {k})
  }

  lemma {:induction false} SumRemove<K(!new)>(m: map<K, nat>, k: K)
    requires k in m
    ensures Sum(m) == m[k] + Sum(m - {k})
    decreases |m|
  {
    var l :| l in m && Sum(m) == m[l] + Sum(m - {l});
    if l != k {
      SumRemove(m - {l}, k);
      SumRemove(m - {k}, l);
      assert m - {l} - {k} == m - {k} - {l};
    }
  }

  lemma SumPut<K(!new)>(m: map<K, nat>, k: K, v: nat)
    ensures Sum(m[k := v]) == Sum(m) - (if k in m then m[k] else 0) + v
  {
    SumRemove(m[k := v], k);
    assert m[k := v] - {k} == m - {k};
    if k in m { SumRemove(m, k); } else { assert m - {k} == m; }
  }

  function At<K>(m: map<K, nat>, k: K): nat { if k in m then m[k] else 0 }

  lemma SumDrop<K(!new)>(m: map<K, nat>, k: K)
    ensures Sum(m) == At(m, k) + Sum(m - {k})
  {
    if k in m { SumRemove(m, k); } else { assert m - {k} == m; }
  }

  /** A missing entry counts as zero: two maps that read the same everywhere have the same sum. */
  lemma SumAgrees<K(!new)>(m: map<K, nat>, n: map<K, nat>)
    requires forall k :: At(m, k) == At(n, k)
    ensures Sum(m) == Sum(n)
  {
    SumAgreesOver(m, n, m.Keys + n.Keys);
  }

  lemma {:induction false} SumAgreesOver<K(!new)>(m: map<K, nat>, n: map<K, nat>, keys: set<K>)
    requires m.Keys <= keys && n.Keys <= keys
    requires forall k :: k in keys ==> At(m, k) == At(n, k)
    ensures Sum(m) == Sum(n)
    decreases keys
  {
    if keys == {} {
      assert m == map[] && n == map[];
    } else {
      var k :| k in keys;
      SumDrop(m, k);
      SumDrop(n, k);
      forall l | l in keys - {k} ensures At(m - {k}, l) == At(n - {k}, l) { assert At(m, l) == At(n, l); }
      SumAgreesOver(m - {k}, n - {k}, keys - {k});
    }
  }

  // ----- Conservation -----

  /** The counters an event raises in an index and in one of its projects alike. */
  datatype Counter = Pages | Downloads | Bytes | Rejected | Refreshes | Changed | Stale | Errors | Uploads | Family(name: string)

  function Read(c: Counters, which: Counter): nat {
    match which
    case Pages => c.pages
    case Downloads => c.downloads
    case Bytes => c.bytes
    case Rejected => c.rejected
    case Refreshes => c.refreshes
    case Changed => c.changed
    case Stale => c.staleServed
    case Errors => c.upstreamErrors
    case Uploads => c.uploads
    case Family(name) => FamilyAt(c.ecosystem, name)
  }

  /** The counters a file keeps for every download of it. */
  predicate IsUsage(which: Counter) { which == Downloads || which == Bytes }

  function ReadFile(f: FileStats, which: Counter): nat
    requires IsUsage(which)
  {
    if which == Downloads then f.downloads else f.bytes
  }

  function ProjectTotals(i: IndexStats, which: Counter): map<string, nat> {
    map p | p in i.projects :: Read(i.projects[p].totals, which)
  }

  function FileTotals(p: ProjectStats, which: Counter): map<string, nat>
    requires IsUsage(which)
  {
    map f | f in p.files :: ReadFile(p.files[f], which)
  }

  ghost predicate ProjectConserves(p: ProjectStats) {
    forall w :: IsUsage(w) ==> Read(p.totals, w) == Sum(FileTotals(p, w))
  }

  ghost predicate IndexConserves(i: IndexStats) {
    && (forall w :: Read(i.totals, w) == Sum(ProjectTotals(i, w)))
    && (forall p :: p in i.projects ==> ProjectConserves(i.projects[p]))
  }

  /** Every index equals the sum over its projects in every shared counter, and every project the sum over its files in
      downloads and bytes. */
  ghost predicate Conserves(t: Tree) { forall r :: r in t ==> IndexConserves(t[r]) }

  /** What an event adds to one counter. */
  function Adds(e: Event, which: Counter): nat {
    match e
    case Page(_, _) => if which == Pages then 1 else 0
    case Download(_, _, _, _, _, bytes) => if which == Downloads then 1 else if which == Bytes then bytes else 0
    case Ecosystem(_, _, _, family) => if which == Family(family) then 1 else 0
    case Upload(_, _) => if which == Uploads then 1 else 0
    case Refresh(_, _, changed) => if which == Refreshes || (which == Changed && changed) then 1 else 0
    case StaleServed(_, _) => if which == Stale then 1 else 0
    case UpstreamError(_, _) => if which == Errors then 1 else 0
    case BlobRejected(_, _) => if which == Rejected then 1 else 0
    case CatalogSync(_, _, _) => 0
  }

  lemma CountAdds(c: Counters, e: Event, which: Counter)
    ensures Read(Count(c, e), which) == Read(c, which) + Adds(e, which)
  {
  }

  lemma CountFileAdds(p: ProjectStats, e: Event, which: Counter)
    requires IsUsage(which)
    ensures Sum(FileTotals(ProjectStats(Count(p.totals, e), CountFile(p, e)), which)) == Sum(FileTotals(p, which)) + Adds(e, which)
  {
    var after := ProjectStats(Count(p.totals, e), CountFile(p, e));
    match e
    case Download(_, _, filename, _, _, _) =>
      var v := ReadFile(after.files[filename], which);
      assert FileTotals(after, which) == FileTotals(p, which)[filename := v];
      SumPut(FileTotals(p, which), filename, v);
    case Ecosystem(_, _, Some(filename), _) =>
      var v := ReadFile(after.files[filename], which);
      assert FileTotals(after, which) == FileTotals(p, which)[filename := v];
      SumPut(FileTotals(p, which), filename, v);
    case _ =>
      assert FileTotals(after, which) == FileTotals(p, which);
  }

  lemma PutProjectAdds(i: IndexStats, project: string, totals: Counters, after: ProjectStats, which: Counter, added: nat)
    requires Read(after.totals, which) == Read(ProjectAt(i, project).totals, which) + added
    ensures Sum(ProjectTotals(IndexStats(totals, i.projects[project := after]), which)) == Sum(ProjectTotals(i, which)) + added
  {
    var v := Read(after.totals, which);
    assert ProjectTotals(IndexStats(totals, i.projects[project := after]), which) == ProjectTotals(i, which)[project := v];
    SumPut(ProjectTotals(i, which), project, v);
  }

  /** An index conserves after one project and the index's own totals grew alike. */
  lemma PutProjectConserves(i: IndexStats, project: string, totals: Counters, after: ProjectStats, added: Counter -> nat)
    requires IndexConserves(i) && ProjectConserves(after)
    requires forall w :: Read(after.totals, w) == Read(ProjectAt(i, project).totals, w) + added(w)
    requires forall w :: Read(totals, w) == Read(i.totals, w) + added(w)
    ensures IndexConserves(IndexStats(totals, i.projects[project := after]))
  {
    var grown := IndexStats(totals, i.projects[project := after]);
    forall w ensures Read(grown.totals, w) == Sum(ProjectTotals(grown, w)) {
      PutProjectAdds(i, project, totals, after, w, added(w));
    }
  }

  lemma ApplyConserves(t: Tree, e: Event)
    requires Conserves(t)
    ensures Conserves(Apply(t, e))
  {
    var index := IndexAt(t, e.route);
    if e.CatalogSync? {
      var after := index.(totals := Count(index.totals, e));
      forall w ensures Read(after.totals, w) == Sum(ProjectTotals(after, w)) {
        CountAdds(index.totals, e, w);
        assert ProjectTotals(after, w) == ProjectTotals(index, w);
      }
    } else {
      ApplyIndexConserves(index, e);
    }
  }

  lemma ApplyIndexConserves(index: IndexStats, e: Event)
    requires IndexConserves(index) && !e.CatalogSync?
    ensures var project := ProjectAt(index, e.project);
      var counted := ProjectStats(Count(project.totals, e), CountFile(project, e));
      IndexConserves(IndexStats(Count(index.totals, e), index.projects[e.project := counted]))
  {
    var project := ProjectAt(index, e.project);
    var counted := ProjectStats(Count(project.totals, e), CountFile(project, e));
    forall w | IsUsage(w) ensures Read(counted.totals, w) == Sum(FileTotals(counted, w)) {
      CountAdds(project.totals, e, w);
      CountFileAdds(project, e, w);
    }
    var added := w => Adds(e, w);
    forall w ensures Read(counted.totals, w) == Read(project.totals, w) + added(w) { CountAdds(project.totals, e, w); }
    forall w ensures Read(Count(index.totals, e), w) == Read(index.totals, w) + added(w) { CountAdds(index.totals, e, w); }
    PutProjectConserves(index, e.project, Count(index.totals, e), counted, added);
  }

  /** Conservation survives any sequence of events, from the empty tree or a restored one. */
  lemma {:induction false} ApplyAllConserves(t: Tree, events: seq<Event>)
    requires Conserves(t)
    ensures Conserves(ApplyAll(t, events))
    decreases |events|
  {
    if events != [] {
      ApplyAllConserves(t, events[..|events| - 1]);
      ApplyConserves(ApplyAll(t, events[..|events| - 1]), events[|events| - 1]);
    }
  }

  // ----- What the totals count -----

  /** A level of the tree. */
  datatype Scope = OfIndex(route: string) | OfProject(route: string, project: string) | OfFile(route: string, project: string, file: string)

  function ProjectOf(t: Tree, route: string, project: string): ProjectStats { ProjectAt(IndexAt(t, route), project) }

  function Total(t: Tree, scope: Scope, which: Counter): nat {
    match scope
    case OfIndex(r) => Read(IndexAt(t, r).totals, which)
    case OfProject(r, p) => Read(ProjectOf(t, r, p).totals, which)
    case OfFile(r, p, f) =>
      FileTotal(FileAt(ProjectOf(t, r, p), f), which)
  }

  function FileTotal(f: FileStats, which: Counter): nat {
    match which
    case Downloads => f.downloads
    case Bytes => f.bytes
    case Family(name) => FamilyAt(f.ecosystem, name)
    case _ => 0
  }

  /** Whether an event is about this index, project or file. */
  predicate Covers(scope: Scope, e: Event) {
    e.route == scope.route && !e.CatalogSync? &&
    (scope.OfIndex? || (e.project == scope.project &&
    (scope.OfProject? || (e.Download? && e.filename == scope.file) || (e.Ecosystem? && e.file == Some(scope.file)))))
  }

  /** What the events about one scope add up to, counted off the events alone. */
  function Tally(events: seq<Event>, scope: Scope, which: Counter): nat
    decreases |events|
  {
    if events == [] then 0
    else
      var last := events[|events| - 1];
      Tally(events[..|events| - 1], scope, which) + if Covers(scope, last) then Adds(last, which) else 0
  }

  lemma ApplyAddsToIndex(t: Tree, e: Event, scope: Scope, which: Counter)
    requires scope.OfIndex?
    ensures Total(Apply(t, e), scope, which) == Total(t, scope, which) + if Covers(scope, e) then Adds(e, which) else 0
  {
    CountAdds(IndexAt(t, e.route).totals, e, which);
  }

  lemma ApplyAddsToProject(t: Tree, e: Event, scope: Scope, which: Counter)
    requires scope.OfProject?
    ensures Total(Apply(t, e), scope, which) == Total(t, scope, which) + if Covers(scope, e) then Adds(e, which) else 0
  {
    ApplyCountsProject(t, e, scope.route, scope.project);
    CountAdds(ProjectOf(t, scope.route, scope.project).totals, e, which);
  }

  lemma ApplyCountsProject(t: Tree, e: Event, r: string, p: string)
    ensures ProjectOf(Apply(t, e), r, p).totals ==
      if Covers(OfProject(r, p), e) then Count(ProjectOf(t, r, p).totals, e) else ProjectOf(t, r, p).totals
  {
  }

  lemma ApplyAddsToFile(t: Tree, e: Event, scope: Scope, which: Counter)
    requires scope.OfFile?
    ensures Total(Apply(t, e), scope, which) == Total(t, scope, which) + if Covers(scope, e) then Adds(e, which) else 0
  {
    var before, after := ProjectOf(t, scope.route, scope.project), ProjectOf(Apply(t, e), scope.route, scope.project);
    ApplyCountsFiles(t, e, scope.route, scope.project);
    if Covers(OfProject(scope.route, scope.project), e) { CountFileTotal(before, after, e, scope.file, which); }
  }

  lemma ApplyCountsFiles(t: Tree, e: Event, r: string, p: string)
    ensures ProjectOf(Apply(t, e), r, p).files ==
      if Covers(OfProject(r, p), e) then CountFile(ProjectOf(t, r, p), e) else ProjectOf(t, r, p).files
  {
  }

  /** The file an event names counts it; the others stay. */
  lemma CountFileTotal(p: ProjectStats, after: ProjectStats, e: Event, file: string, which: Counter)
    requires after.files == CountFile(p, e)
    ensures FileTotal(FileAt(after, file), which) == FileTotal(FileAt(p, file), which) +
      if (e.Download? && e.filename == file) || (e.Ecosystem? && e.file == Some(file)) then Adds(e, which) else 0
  {
  }

  /** Every counter at every level is the tally of the events about it. */
  lemma {:induction false} TotalsTallyEvents(t: Tree, events: seq<Event>, scope: Scope, which: Counter)
    ensures Total(ApplyAll(t, events), scope, which) == Total(t, scope, which) + Tally(events, scope, which)
    decreases |events|
  {
    if events != [] {
      var n := |events| - 1;
      TotalsTallyEvents(t, events[..n], scope, which);
      var u := ApplyAll(t, events[..n]);
      match scope
      case OfIndex(_) => ApplyAddsToIndex(u, events[n], scope, which);
      case OfProject(_, _) => ApplyAddsToProject(u, events[n], scope, which);
      case OfFile(_, _, _) => ApplyAddsToFile(u, events[n], scope, which);
    }
  }

  // ----- The catalog counters of an index -----

  /** What a sync of a route's catalog is counted as. */
  datatype SyncCount = Syncs | Outcome(outcome: CatalogOutcome)

  function ReadSyncs(c: Counters, which: SyncCount): nat {
    match which
    case Syncs => c.catalogSyncs
    case Outcome(Published) => c.catalogPublished
    case Outcome(NotModified) => c.catalogNotModified
    case Outcome(SyncError) => c.catalogErrors
  }

  /** The catalog syncs of a route among the events, all of them or those with one outcome. */
  function SyncTally(events: seq<Event>, route: string, which: SyncCount): nat
    decreases |events|
  {
    if events == [] then 0
    else
      var last := events[|events| - 1];
      SyncTally(events[..|events| - 1], route, which) +
        if last.CatalogSync? && last.route == route && (which.Outcome? ==> last.outcome == which.outcome) then 1 else 0
  }

  /** The number of projects the route's catalog was last said to have. */
  function LastProjects(events: seq<Event>, route: string): Option<nat>
    decreases |events|
  {
    if events == [] then None
    else
      var last := events[|events| - 1];
      if last.CatalogSync? && last.route == route && last.projects.Some? then last.projects
      else LastProjects(events[..|events| - 1], route)
  }

  /** The catalog counters of an index are the tallies of its syncs, and its project count the last one reported. */
  lemma {:induction false} CatalogTallies(t: Tree, events: seq<Event>, route: string, which: SyncCount)
    ensures var before, after := IndexAt(t, route).totals, IndexAt(ApplyAll(t, events), route).totals;
      && ReadSyncs(after, which) == ReadSyncs(before, which) + SyncTally(events, route, which)
      && after.catalogProjects == (if LastProjects(events, route).Some? then LastProjects(events, route).value else before.catalogProjects)
    decreases |events|
  {
    if events != [] {
      var n := |events| - 1;
      CatalogTallies(t, events[..n], route, which);
      CatalogStep(ApplyAll(t, events[..n]), events[n], route, which);
    }
  }

  lemma CatalogStep(t: Tree, e: Event, route: string, which: SyncCount)
    ensures var before, after := IndexAt(t, route).totals, IndexAt(Apply(t, e), route).totals;
      var synced := e.CatalogSync? && e.route == route;
      && ReadSyncs(after, which) == ReadSyncs(before, which) + (if synced && (which.Outcome? ==> e.outcome == which.outcome) then 1 else 0)
      && after.catalogProjects == (if synced && e.projects.Some? then e.projects.value else before.catalogProjects)
  {
  }

  // ----- The download snapshot -----

  /** Where a file sits in the tree. */
  datatype Path = Path(route: string, project: string, filename: string)

  datatype FileRow = FileRow(path: Path, downloads: nat, bytes: nat)

  predicate HasFile(t: Tree, path: Path) {
    && path.route in t
    && path.project in t[path.route].projects
    && path.filename in t[path.route].projects[path.project].files
  }

  function UsageOf(t: Tree, path: Path, which: Counter): nat
    requires IsUsage(which)
  {
    ReadFile(FileAt(ProjectOf(t, path.route, path.project), path.filename), which)
  }

  function RowAdds(row: FileRow, which: Counter): nat {
    if which == Downloads then row.downloads else if which == Bytes then row.bytes else 0
  }

  ghost function Paths(rows: seq<FileRow>): set<Path> { set i | 0 <= i < |rows| :: rows[i].path }

  ghost predicate DistinctPaths(rows: seq<FileRow>) {
    forall i, j :: 0 <= i < j < |rows| ==> rows[i].path != rows[j].path
  }

  ghost predicate RowMatches(t: Tree, row: FileRow) {
    forall w :: IsUsage(w) ==> RowAdds(row, w) == UsageOf(t, row.path, w)
  }

  /** The rows list every file of the tree once with its usage, in whatever order the maps are walked. */
  ghost predicate IsSnapshot(t: Tree, rows: seq<FileRow>) {
    && DistinctPaths(rows)
    && (forall i :: 0 <= i < |rows| ==> RowMatches(t, rows[i]))
    && (forall path :: HasFile(t, path) <==> path in Paths(rows))
  }

  function Files(t: Tree): (files: set<Path>)
    ensures forall path :: path in files <==> HasFile(t, path)
  {
    set r, p, f | r in t && p in t[r].projects && f in t[r].projects[p].files :: Path(r, p, f)
  }

  function RowOf(t: Tree, path: Path): (row: FileRow)
    requires HasFile(t, path)
    ensures row.path == path && RowMatches(t, row)
  {
    var f := t[path.route].projects[path.project].files[path.filename];
    FileRow(path, f.downloads, f.bytes)
  }

  /** The rows list every file of the tree but those left. */
  ghost predicate ListsAllBut(t: Tree, rows: seq<FileRow>, left: set<Path>) {
    && DistinctPaths(rows)
    && (forall i :: 0 <= i < |rows| ==> RowMatches(t, rows[i]))
    && left !! Paths(rows)
    && Files(t) == left + Paths(rows)
  }

  lemma ListsOneMore(t: Tree, rows: seq<FileRow>, left: set<Path>, row: FileRow)
    requires ListsAllBut(t, rows, left) && row.path in left && RowMatches(t, row)
    ensures ListsAllBut(t, rows + [row], left - {row.path})
  {
    PathsAppend(rows, row);
    assert left + Paths(rows) == left - {row.path} + Paths(rows + [row]);
  }

  /** A snapshot, files picked off one by one. */
  method SnapshotDownloads(t: Tree) returns (rows: seq<FileRow>)
    ensures IsSnapshot(t, rows)
  {
    rows := [];
    var left := Files(t);
    while left != {}
      invariant ListsAllBut(t, rows, left)
      decreases |left|
    {
      var path :| path in left;
      ListsOneMore(t, rows, left, RowOf(t, path));
      rows := rows + [RowOf(t, path)];
      left := left - {path};
    }
  }

  lemma PathsAppend(rows: seq<FileRow>, row: FileRow)
    ensures Paths(rows + [row]) == Paths(rows) + {row.path}
    ensures DistinctPaths(rows) && row.path !in Paths(rows) ==> DistinctPaths(rows + [row])
  {
    var all := rows + [row];
    forall i | 0 <= i < |rows| ensures all[i].path in Paths(rows) { assert all[i] == rows[i]; }
    forall path | path in Paths(rows) + {row.path} ensures path in Paths(all) {
      if path == row.path {
        assert all[|rows|].path == path;
      } else {
        var i :| 0 <= i < |rows| && rows[i].path == path;
        assert all[i].path == path;
      }
    }
  }

  function AddUsage(c: Counters, row: FileRow): Counters {
    c.(downloads := c.downloads + row.downloads, bytes := c.bytes + row.bytes)
  }

  function RestoreFile(p: ProjectStats, row: FileRow): ProjectStats {
    var file := FileAt(p, row.path.filename);
    var restored := file.(downloads := file.downloads + row.downloads, bytes := file.bytes + row.bytes);
    ProjectStats(AddUsage(p.totals, row), p.files[row.path.filename := restored])
  }

  function RestoreProject(i: IndexStats, row: FileRow): IndexStats {
    var project := RestoreFile(ProjectAt(i, row.path.project), row);
    IndexStats(AddUsage(i.totals, row), i.projects[row.path.project := project])
  }

  function RestoreRow(t: Tree, row: FileRow): Tree {
    t[row.path.route := RestoreProject(IndexAt(t, row.path.route), row)]
  }

  function Restore(t: Tree, rows: seq<FileRow>): Tree
    decreases |rows|
  {
    if rows == [] then t else RestoreRow(Restore(t, rows[..|rows| - 1]), rows[|rows| - 1])
  }

  lemma RestoreFileConserves(p: ProjectStats, row: FileRow)
    requires ProjectConserves(p)
    ensures ProjectConserves(RestoreFile(p, row))
  {
    var after := RestoreFile(p, row);
    forall w | IsUsage(w) ensures Read(after.totals, w) == Sum(FileTotals(after, w)) {
      var v := ReadFile(after.files[row.path.filename], w);
      assert FileTotals(after, w) == FileTotals(p, w)[row.path.filename := v];
      SumPut(FileTotals(p, w), row.path.filename, v);
    }
  }

  lemma RestoreProjectConserves(i: IndexStats, row: FileRow)
    requires IndexConserves(i)
    ensures IndexConserves(RestoreProject(i, row))
  {
    var before := ProjectAt(i, row.path.project);
    assert ProjectConserves(before);
    RestoreFileConserves(before, row);
    var added := w => RowAdds(row, w);
    UsageAdds(before.totals, row, added);
    UsageAdds(i.totals, row, added);
    PutProjectConserves(i, row.path.project, AddUsage(i.totals, row), RestoreFile(before, row), added);
  }

  lemma UsageAdds(c: Counters, row: FileRow, added: Counter -> nat)
    requires forall w :: added(w) == RowAdds(row, w)
    ensures forall w :: Read(AddUsage(c, row), w) == Read(c, w) + added(w)
  {
  }

  /** Restoring keeps a conserving tree conserving, whatever the rows. */
  lemma {:induction false} RestoreConserves(t: Tree, rows: seq<FileRow>)
    requires Conserves(t)
    ensures Conserves(Restore(t, rows))
    decreases |rows|
  {
    if rows != [] {
      var n := |rows| - 1;
      RestoreConserves(t, rows[..n]);
      RestoreProjectConserves(IndexAt(Restore(t, rows[..n]), rows[n].path.route), rows[n]);
    }
  }

  /** What rows list for one file; rows that share a path add up. */
  function Listed(rows: seq<FileRow>, path: Path, which: Counter): nat
    decreases |rows|
  {
    if rows == [] then 0
    else
      var n := |rows| - 1;
      Listed(rows[..n], path, which) + if rows[n].path == path then RowAdds(rows[n], which) else 0
  }

  /** The row is about this index, project or file. */
  predicate RowCovers(scope: Scope, row: FileRow) {
    row.path.route == scope.route &&
    (scope.OfIndex? || (row.path.project == scope.project && (scope.OfProject? || row.path.filename == scope.file)))
  }

  /** What rows list for one scope. */
  function ListedFor(rows: seq<FileRow>, scope: Scope, which: Counter): nat
    decreases |rows|
  {
    if rows == [] then 0
    else
      var n := |rows| - 1;
      ListedFor(rows[..n], scope, which) + if RowCovers(scope, rows[n]) then RowAdds(rows[n], which) else 0
  }

  lemma RestoreCountsProject(t: Tree, row: FileRow, r: string, p: string)
    ensures ProjectOf(RestoreRow(t, row), r, p).totals ==
      if RowCovers(OfProject(r, p), row) then AddUsage(ProjectOf(t, r, p).totals, row) else ProjectOf(t, r, p).totals
  {
  }

  lemma RestoreCountsFile(t: Tree, row: FileRow, r: string, p: string, f: string)
    ensures var before := FileAt(ProjectOf(t, r, p), f);
      FileAt(ProjectOf(RestoreRow(t, row), r, p), f) ==
        if RowCovers(OfFile(r, p, f), row) then before.(downloads := before.downloads + row.downloads, bytes := before.bytes + row.bytes)
        else before
  {
  }

  lemma UsageAddsOne(c: Counters, row: FileRow, which: Counter)
    ensures Read(AddUsage(c, row), which) == Read(c, which) + RowAdds(row, which)
  {
  }

  lemma RestoreRowTotals(t: Tree, row: FileRow, scope: Scope, which: Counter)
    ensures Total(RestoreRow(t, row), scope, which) == Total(t, scope, which) + if RowCovers(scope, row) then RowAdds(row, which) else 0
  {
    match scope
    case OfIndex(r) => UsageAddsOne(IndexAt(t, r).totals, row, which);
    case OfProject(r, p) =>
      RestoreCountsProject(t, row, r, p);
      UsageAddsOne(ProjectOf(t, r, p).totals, row, which);
    case OfFile(r, p, f) => RestoreCountsFile(t, row, r, p, f);
  }

  /** Restoring adds to every index, project and file exactly what the rows list for it, and to no other counter. */
  lemma {:induction false} RestoreAdds(t: Tree, rows: seq<FileRow>, scope: Scope, which: Counter)
    ensures Total(Restore(t, rows), scope, which) == Total(t, scope, which) + ListedFor(rows, scope, which)
    decreases |rows|
  {
    if rows != [] {
      var n := |rows| - 1;
      RestoreAdds(t, rows[..n], scope, which);
      RestoreRowTotals(Restore(t, rows[..n]), rows[n], scope, which);
    }
  }

  /** Nor to the counters of catalog syncs. */
  lemma {:induction false} RestoreKeepsSyncs(t: Tree, rows: seq<FileRow>, route: string, which: SyncCount)
    ensures var before, after := IndexAt(t, route).totals, IndexAt(Restore(t, rows), route).totals;
      ReadSyncs(after, which) == ReadSyncs(before, which) && after.catalogProjects == before.catalogProjects
    decreases |rows|
  {
    if rows != [] { RestoreKeepsSyncs(t, rows[..|rows| - 1], route, which); }
  }

  function FileScope(path: Path): Scope { OfFile(path.route, path.project, path.filename) }

  lemma {:induction false} ListedIsFor(rows: seq<FileRow>, path: Path, which: Counter)
    ensures Listed(rows, path, which) == ListedFor(rows, FileScope(path), which)
    decreases |rows|
  {
    if rows != [] { ListedIsFor(rows[..|rows| - 1], path, which); }
  }

  lemma RestoreAddsFile(t: Tree, rows: seq<FileRow>, path: Path, which: Counter)
    requires IsUsage(which)
    ensures UsageOf(Restore(t, rows), path, which) == UsageOf(t, path, which) + Listed(rows, path, which)
  {
    RestoreAdds(t, rows, FileScope(path), which);
    ListedIsFor(rows, path, which);
  }

  lemma {:induction false} ListedOnce(rows: seq<FileRow>, path: Path, which: Counter)
    requires DistinctPaths(rows)
    ensures path !in Paths(rows) ==> Listed(rows, path, which) == 0
    ensures forall i :: 0 <= i < |rows| && rows[i].path == path ==> Listed(rows, path, which) == RowAdds(rows[i], which)
    decreases |rows|
  {
    if rows != [] {
      var n := |rows| - 1;
      ListedOnce(rows[..n], path, which);
      PathsAppend(rows[..n], rows[n]);
      assert rows[..n] + [rows[n]] == rows;
      forall i | 0 <= i < n ensures rows[..n][i].path != rows[n].path { assert rows[..n][i] == rows[i]; }
      forall i | 0 <= i < |rows| && rows[i].path == path ensures Listed(rows, path, which) == RowAdds(rows[i], which) {
        if i < n { assert rows[..n][i] == rows[i]; }
      }
    }
  }

  /** The rows add up to the usage of every file, and so of every missing file to nothing. */
  ghost predicate ListsUsage(t: Tree, rows: seq<FileRow>) {
    forall path, w :: IsUsage(w) ==> Listed(rows, path, w) == UsageOf(t, path, w)
  }

  lemma SnapshotListsUsage(t: Tree, rows: seq<FileRow>)
    requires IsSnapshot(t, rows)
    ensures ListsUsage(t, rows)
  {
    forall path, w | IsUsage(w) ensures Listed(rows, path, w) == UsageOf(t, path, w) { SnapshotLists(t, rows, path, w); }
  }

  lemma SnapshotLists(t: Tree, rows: seq<FileRow>, path: Path, which: Counter)
    requires IsSnapshot(t, rows) && IsUsage(which)
    ensures Listed(rows, path, which) == UsageOf(t, path, which)
  {
    ListedOnce(rows, path, which);
    if path in Paths(rows) {
      var i :| 0 <= i < |rows| && rows[i].path == path;
      assert RowMatches(t, rows[i]);
    } else {
      assert !HasFile(t, path);
    }
  }

  /** Events other than downloads leave every file's usage alone, so an older snapshot still lists it. */
  lemma {:induction false} OtherEventsKeepUsage(t: Tree, events: seq<Event>, path: Path, which: Counter)
    requires IsUsage(which) && forall i :: 0 <= i < |events| ==> !events[i].Download?
    ensures UsageOf(ApplyAll(t, events), path, which) == UsageOf(t, path, which)
    decreases |events|
  {
    if events != [] {
      var n := |events| - 1;
      OtherEventsKeepUsage(t, events[..n], path, which);
      ApplyAddsToFile(ApplyAll(t, events[..n]), events[n], OfFile(path.route, path.project, path.filename), which);
    }
  }

  ghost predicate SameUsage(t: Tree, u: Tree, path: Path, which: Counter)
    requires IsUsage(which)
  {
    UsageOf(t, path, which) == UsageOf(u, path, which)
  }

  lemma FileTotalsAt(p: ProjectStats, f: string, which: Counter)
    requires IsUsage(which)
    ensures At(FileTotals(p, which), f) == ReadFile(FileAt(p, f), which)
  {
  }

  /** In conserving trees the files decide the projects' usage... */
  lemma FilesDecideProject(t: Tree, u: Tree, r: string, p: string, which: Counter)
    requires Conserves(t) && Conserves(u) && IsUsage(which)
    requires forall path :: SameUsage(t, u, path, which)
    ensures Read(ProjectOf(t, r, p).totals, which) == Read(ProjectOf(u, r, p).totals, which)
  {
    var a, b := ProjectOf(t, r, p), ProjectOf(u, r, p);
    assert ProjectConserves(a) && ProjectConserves(b);
    forall f ensures At(FileTotals(a, which), f) == At(FileTotals(b, which), f) {
      assert SameUsage(t, u, Path(r, p, f), which);
      FileTotalsAt(a, f, which);
      FileTotalsAt(b, f, which);
    }
    SumAgrees(FileTotals(a, which), FileTotals(b, which));
  }

  /** ... and so the indexes'. */
  lemma FilesDecideIndex(t: Tree, u: Tree, r: string, which: Counter)
    requires Conserves(t) && Conserves(u) && IsUsage(which)
    requires forall path :: SameUsage(t, u, path, which)
    ensures Read(IndexAt(t, r).totals, which) == Read(IndexAt(u, r).totals, which)
  {
    var a, b := IndexAt(t, r), IndexAt(u, r);
    assert IndexConserves(a) && IndexConserves(b);
    forall p ensures At(ProjectTotals(a, which), p) == At(ProjectTotals(b, which), p) {
      FilesDecideProject(t, u, r, p, which);
    }
    SumAgrees(ProjectTotals(a, which), ProjectTotals(b, which));
  }

  /** Restoring rows that list the usage of any conserving tree, as a snapshot of it does in any order, reproduces every
      download and byte total at all three levels. */
  lemma RestoreReproduces(t: Tree, rows: seq<FileRow>, path: Path, which: Counter)
    requires Conserves(t) && ListsUsage(t, rows) && IsUsage(which)
    ensures var u := Restore(map[], rows);
      && UsageOf(u, path, which) == UsageOf(t, path, which)
      && Read(ProjectOf(u, path.route, path.project).totals, which) == Read(ProjectOf(t, path.route, path.project).totals, which)
      && Read(IndexAt(u, path.route).totals, which) == Read(IndexAt(t, path.route).totals, which)
  {
    var u := Restore(map[], rows);
    RestoreConserves(map[], rows);
    forall q ensures SameUsage(t, u, q, which) {
      RestoreAddsFile(map[], rows, q, which);
    }
    FilesDecideProject(t, u, path.route, path.project, which);
    FilesDecideIndex(t, u, path.route, which);
    assert SameUsage(t, u, path, which);
  }
}
