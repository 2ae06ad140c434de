/** The aggregator that owns the usage tree and the daily buckets and updates both in place
    (crates/peryx-events/src/metrics.rs). */
module Aggregator {
  import opened Common
  import opened UsageTree
  import opened DailyUsage

  lemma OneMoreEvent(t: Tree, events: seq<Stamped>, n: nat)
    requires n < |events|
    ensures ApplyAll(t, Events(events[..n + 1])) == Apply(ApplyAll(t, Events(events[..n])), events[n].event)
    ensures Collected(events[..n + 1]) == Collected(events[..n]) + Collect(events[n])
  {
    assert events[..n + 1][..n] == events[..n];
    assert Events(events[..n + 1])[..n] == Events(events[..n]);
  }

  class State {
    var tree: Tree
    var daily: Buckets
    const retention: Option<nat>

    /** A start: restore both snapshots, then expire. */
    constructor (files: seq<FileRow>, days: seq<DailyRow>, retention: Option<nat>, now: int)
      ensures tree == Restore(map[], files)
      ensures daily == Retained(FoldRows(map[], days), now, retention)
      ensures this.retention == retention
    {
      tree := map[];
      daily := map[];
      this.retention := retention;
      new;
      RestoreDownloads(files);
      FoldDaily(days);
      if retention.Some? { daily := Expire(daily, now, retention.value); }
    }

    method RestoreDownloads(rows: seq<FileRow>)
      modifies this`tree
      ensures tree == Restore(old(tree), rows)
    {
      for n := 0 to |rows|
        invariant tree == Restore(old(tree), rows[..n])
      {
        RestoreOne(rows[n]);
        assert rows[..n + 1][..n] == rows[..n];
      }
      assert rows[..|rows|] == rows;
    }

    method RestoreOne(row: FileRow)
      modifies this`tree
      ensures tree == RestoreRow(old(tree), row)
    {
      var index := IndexAt(tree, row.path.route);
      index := index.(totals := AddUsage(index.totals, row));
      var project := ProjectAt(index, row.path.project);
      project := project.(totals := AddUsage(project.totals, row));
      var file := FileAt(project, row.path.filename);
      file := file.(downloads := file.downloads + row.downloads, bytes := file.bytes + row.bytes);
      project := project.(files := project.files[row.path.filename := file]);
      index := index.(projects := index.projects[row.path.project := project]);
      tree := tree[row.path.route := index];
    }

    /** The loop that folds a batch's downloads, and the one that restores a daily snapshot. */
    method FoldDaily(rows: seq<DailyRow>)
      modifies this`daily
      ensures daily == FoldRows(old(daily), rows)
    {
      for n := 0 to |rows|
        invariant daily == FoldRows(old(daily), rows[..n])
      {
        var totals := BucketAt(daily, rows[n].key);
        totals := Usage(totals.downloads + rows[n].usage.downloads, totals.bytes + rows[n].usage.bytes);
        daily := daily[rows[n].key := totals];
        assert rows[..n + 1][..n] == rows[..n];
      }
      assert rows[..|rows|] == rows;
    }

    /** One event, arm by arm. */
    method ApplyEvent(e: Event)
      modifies this`tree
      ensures tree == Apply(old(tree), e)
    {
      var index := IndexAt(tree, e.route);
      if e.CatalogSync? {
        index := index.(totals := Count(index.totals, e));
      } else {
        var project := ProjectAt(index, e.project);
        var a, b := CountBoth(index.totals, project.totals, e);
        var files := CountInFiles(project, e);
        index := IndexStats(a, index.projects[e.project := ProjectStats(b, files)]);
      }
      tree := tree[e.route := index];
    }

    /** The arms of the event, on the totals of the index and of the project. */
    static method CountBoth(index: Counters, project: Counters, e: Event) returns (a: Counters, b: Counters)
      requires !e.CatalogSync?
      ensures a == Count(index, e) && b == Count(project, e)
    {
      a, b := index, project;
      match e
      case Page(_, _) =>
        a := a.(pages := a.pages + 1);
        b := b.(pages := b.pages + 1);
      case Download(_, _, _, _, _, bytes) =>
        a := a.(downloads := a.downloads + 1, bytes := a.bytes + bytes);
        b := b.(downloads := b.downloads + 1, bytes := b.bytes + bytes);
      case Ecosystem(_, _, _, family) =>
        a := a.(ecosystem := Bumped(a.ecosystem, family));
        b := b.(ecosystem := Bumped(b.ecosystem, family));
      case Upload(_, _) =>
        a := a.(uploads := a.uploads + 1);
        b := b.(uploads := b.uploads + 1);
      case Refresh(_, _, changed) =>
        a := a.(refreshes := a.refreshes + 1);
        b := b.(refreshes := b.refreshes + 1);
        if changed {
          a := a.(changed := a.changed + 1);
          b := b.(changed := b.changed + 1);
        }
      case StaleServed(_, _) =>
        a := a.(staleServed := a.staleServed + 1);
        b := b.(staleServed := b.staleServed + 1);
      case UpstreamError(_, _) =>
        a := a.(upstreamErrors := a.upstreamErrors + 1);
        b := b.(upstreamErrors := b.upstreamErrors + 1);
      case BlobRejected(_, _) =>
        a := a.(rejected := a.rejected + 1);
        b := b.(rejected := b.rejected + 1);
    }

    /** The file's share of an event. */
    static method CountInFiles(project: ProjectStats, e: Event) returns (files: map<string, FileStats>)
      ensures files == CountFile(project, e)
    {
      files := project.files;
      if e.Download? {
        var file := FileAt(project, e.filename);
        files := files[e.filename := file.(downloads := file.downloads + 1, bytes := file.bytes + e.bytes)];
      } else if e.Ecosystem? && e.file.Some? {
        var file := FileAt(project, e.file.value);
        files := files[e.file.value := file.(ecosystem := Bumped(file.ecosystem, e.family))];
      }
    }

    /** One drain of the queue: apply every event, then fold the downloads it collected and expire if there were any. */
    method Aggregate(events: seq<Stamped>, now: int)
      modifies this
      ensures tree == ApplyAll(old(tree), Events(events))
      ensures daily == DailyStep(old(daily), Batch(events, now), retention)
    {
      var downloads := [];
      for n := 0 to |events|
        invariant tree == ApplyAll(old(tree), Events(events[..n]))
        invariant downloads == Collected(events[..n])
        invariant daily == old(daily)
      {
        OneMoreEvent(old(tree), events, n);
        downloads := downloads + Collect(events[n]);
        ApplyEvent(events[n].event);
      }
      assert events[..|events|] == events;
      if downloads != [] {
        FoldDaily(downloads);
        if retention.Some? { daily := Expire(daily, now, retention.value); }
      }
    }
  }
}
