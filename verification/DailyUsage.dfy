/** The daily usage buckets beside the usage tree: folding, retention, restarts and the aggregator that drives both
    (crates/peryx-events/src/metrics.rs). Every clock reading is part of the input. */
module DailyUsage {
  import opened Common
  import opened ByteOrder
  import opened UsageTree

  const SECONDS_PER_DAY: int := 86_400

  datatype DailyKey = DailyKey(day: int, repository: string, project: string, version: string, source: string)
  datatype Usage = Usage(downloads: nat, bytes: nat)
  datatype DailyRow = DailyRow(key: DailyKey, usage: Usage)
  type Buckets = map<DailyKey, Usage>

  /** An event with the clock reading its bucket is dated by. */
  datatype Stamped = Stamped(event: Event, at: int)

  /** Division rounds down, before the epoch too. */
  function UtcDay(seconds: int): int { seconds / SECONDS_PER_DAY }

  function OrEmpty(o: Option<string>): string { if o.Some? then o.value else "" }

  /** What one event contributes: a download is one row, anything else none. */
  function Collect(s: Stamped): seq<DailyRow> {
    match s.event
    case Download(route, project, _, version, source, bytes) =>
      [DailyRow(DailyKey(UtcDay(s.at), route, project, OrEmpty(version), OrEmpty(source)), Usage(1, bytes))]
    case _ => []
  }

  function Collected(events: seq<Stamped>): seq<DailyRow>
    decreases |events|
  {
    if events == [] then [] else Collected(events[..|events| - 1]) + Collect(events[|events| - 1])
  }

  const NO_USAGE := Usage(0, 0)

  function BucketAt(b: Buckets, key: DailyKey): Usage { if key in b then b[key] else NO_USAGE }

  function Add(b: Buckets, row: DailyRow): Buckets {
    var u := BucketAt(b, row.key);
    b[row.key := Usage(u.downloads + row.usage.downloads, u.bytes + row.usage.bytes)]
  }

  /** Rows that share a key add up. */
  function FoldRows(b: Buckets, rows: seq<DailyRow>): Buckets
    decreases |rows|
  {
    if rows == [] then b else Add(FoldRows(b, rows[..|rows| - 1]), rows[|rows| - 1])
  }

  /** The keys' derived order: day first, then each text field. */
  predicate KeyBefore(a: DailyKey, b: DailyKey) {
    a.day < b.day || (a.day == b.day &&
    (Before(a.repository, b.repository) || (a.repository == b.repository &&
    (Before(a.project, b.project) || (a.project == b.project &&
    (Before(a.version, b.version) || (a.version == b.version && Before(a.source, b.source))))))))
  }

  function Floor(now: int, days: nat): DailyKey { DailyKey(UtcDay(now) - days, "", "", "", "") }

  /** Splitting the ordered buckets at the floor key keeps what is not before it. */
  function Expire(b: Buckets, now: int, days: nat): Buckets {
    map k | k in b && !KeyBefore(k, Floor(now, days)) :: b[k]
  }

  /** The split is by day alone: a bucket survives if and only if it is at most `days` days old, and is then untouched. */
  lemma ExpireIsByDay(b: Buckets, now: int, days: nat, k: DailyKey)
    ensures k in Expire(b, now, days) <==> k in b && k.day >= UtcDay(now) - days
    ensures k in Expire(b, now, days) ==> Expire(b, now, days)[k] == b[k]
  {
    assert !Before(k.repository, "") && !Before(k.project, "") && !Before(k.version, "") && !Before(k.source, "");
  }

  // ----- Folding commutes with retention -----

  /** The bucket under a key, if any. */
  function Entry(b: Buckets, k: DailyKey): Option<Usage> { if k in b then Some(b[k]) else None }

  lemma SameEntries(b: Buckets, c: Buckets)
    requires forall k :: Entry(b, k) == Entry(c, k)
    ensures b == c
  {
    forall k ensures (k in b <==> k in c) && (k in b ==> b[k] == c[k]) { assert Entry(b, k) == Entry(c, k); }
  }

  /** A fold reaches each bucket from its own old value only. */
  lemma {:induction false} FoldIsPerBucket(b: Buckets, c: Buckets, rows: seq<DailyRow>, k: DailyKey)
    requires Entry(b, k) == Entry(c, k)
    ensures Entry(FoldRows(b, rows), k) == Entry(FoldRows(c, rows), k)
    decreases |rows|
  {
    if rows != [] { FoldIsPerBucket(b, c, rows[..|rows| - 1], k); }
  }

  lemma {:induction false} FoldConcat(b: Buckets, x: seq<DailyRow>, y: seq<DailyRow>)
    ensures FoldRows(b, x + y) == FoldRows(FoldRows(b, x), y)
    decreases |y|
  {
    if y == [] {
      assert x + y == x;
    } else {
      var n := |y| - 1;
      FoldConcat(b, x, y[..n]);
      assert (x + y)[..|x + y| - 1] == x + y[..n];
    }
  }

  /** Whether a download belongs in a bucket: it happened within the bucket's day, and a missing label reads as empty. */
  predicate BelongsIn(s: Stamped, k: DailyKey) {
    && s.event.Download?
    && k.day * 86_400 <= s.at < (k.day + 1) * 86_400
    && s.event.route == k.repository && s.event.project == k.project
    && (s.event.version == Some(k.version) || (s.event.version.None? && k.version == ""))
    && (s.event.source == Some(k.source) || (s.event.source.None? && k.source == ""))
  }

  /** A bucket's usage counted off the events alone. */
  function BucketTally(events: seq<Stamped>, k: DailyKey): Usage
    decreases |events|
  {
    if events == [] then NO_USAGE
    else
      var before, last := BucketTally(events[..|events| - 1], k), events[|events| - 1];
      if BelongsIn(last, k) then Usage(before.downloads + 1, before.bytes + last.event.bytes) else before
  }

  lemma AddOne(b: Buckets, s: Stamped, k: DailyKey)
    ensures k in FoldRows(b, Collect(s)) <==> k in b || BelongsIn(s, k)
    ensures var u := BucketAt(b, k);
      BucketAt(FoldRows(b, Collect(s)), k) == if BelongsIn(s, k) then Usage(u.downloads + 1, u.bytes + s.event.bytes) else u
  {
  }

  /** A fold adds to every bucket the tally of its downloads... */
  lemma {:induction false} FoldTallies(b: Buckets, events: seq<Stamped>, k: DailyKey)
    ensures var u, v := BucketAt(b, k), BucketTally(events, k);
      BucketAt(FoldRows(b, Collected(events)), k) == Usage(u.downloads + v.downloads, u.bytes + v.bytes)
    decreases |events|
  {
    if events != [] {
      var n := |events| - 1;
      FoldTallies(b, events[..n], k);
      FoldConcat(b, Collected(events[..n]), Collect(events[n]));
      AddOne(FoldRows(b, Collected(events[..n])), events[n], k);
    }
  }

  /** ... and makes a bucket only where some download belongs. */
  lemma {:induction false} FoldMakesBuckets(b: Buckets, events: seq<Stamped>, k: DailyKey)
    ensures k in FoldRows(b, Collected(events)) <==> k in b || exists i :: 0 <= i < |events| && BelongsIn(events[i], k)
    decreases |events|
  {
    if events != [] {
      var n := |events| - 1;
      var before := events[..n];
      FoldMakesBuckets(b, before, k);
      FoldConcat(b, Collected(before), Collect(events[n]));
      AddOne(FoldRows(b, Collected(before)), events[n], k);
      forall i | 0 <= i < n ensures BelongsIn(before[i], k) <==> BelongsIn(events[i], k) {}
    }
  }

  /** An expiry that a later, no earlier-dated one follows changes nothing in the end, whatever is folded between them. */
  lemma EarlierExpiryIsAbsorbed(b: Buckets, rows: seq<DailyRow>, earlier: int, later: int, days: nat)
    requires earlier <= later
    ensures Expire(FoldRows(Expire(b, earlier, days), rows), later, days) == Expire(FoldRows(b, rows), later, days)
  {
    var c := Expire(b, earlier, days);
    var x, y := FoldRows(c, rows), FoldRows(b, rows);
    forall k ensures Entry(Expire(x, later, days), k) == Entry(Expire(y, later, days), k) {
      ExpireIsByDay(b, earlier, days, k);
      ExpireIsByDay(x, later, days, k);
      ExpireIsByDay(y, later, days, k);
      if k.day >= UtcDay(later) - days { FoldIsPerBucket(c, b, rows, k); }
    }
    SameEntries(Expire(x, later, days), Expire(y, later, days));
  }

  // ----- Runs: batches and restarts -----

  datatype Step =
    | Batch(events: seq<Stamped>, now: int)   // one drain of the queue, and the clock at its end
    | Restart(now: int)                       // tree and buckets come back from what was saved last
    | Torn(events: seq<Stamped>, now: int)    // a drain that stops once the tree is saved and the buckets are not, then a start

  function RowsOf(s: Step): seq<DailyRow> { if s.Batch? then Collected(s.events) else [] }

  /** A batch expires only if it held a download; a start always does. */
  predicate Expires(s: Step) { !s.Batch? || RowsOf(s) != [] }

  function Retained(b: Buckets, now: int, retention: Option<nat>): Buckets {
    if retention.Some? then Expire(b, now, retention.value) else b
  }

  function DailyStep(b: Buckets, s: Step, retention: Option<nat>): Buckets {
    if Expires(s) then Retained(FoldRows(b, RowsOf(s)), s.now, retention) else b
  }

  /** The bucket's day is at most the retention away from the clock's. */
  predicate Kept(k: DailyKey, now: int, retention: Option<nat>) {
    retention.Some? ==> (k.day + retention.value + 1) * 86_400 > now
  }

  /** One drain, bucket by bucket. Without a download nothing moves, not even by age. With one, a bucket is there afterwards
      exactly when it was or a download belongs in it, and its day is within the retention of the clock at the end; and it
      then holds what it did plus the tally of those downloads. */
  lemma BatchExact(b: Buckets, events: seq<Stamped>, now: int, retention: Option<nat>, k: DailyKey)
    ensures var after := DailyStep(b, Batch(events, now), retention);
      if forall i :: 0 <= i < |events| ==> !events[i].event.Download? then after == b
      else
        && (k in after <==> (k in b || exists i :: 0 <= i < |events| && BelongsIn(events[i], k)) && Kept(k, now, retention))
        && (k in after ==> var u, v := BucketAt(b, k), BucketTally(events, k);
                           after[k] == Usage(u.downloads + v.downloads, u.bytes + v.bytes))
  {
    CollectedEmptyIff(events);
    if Collected(events) != [] {
      var folded := FoldRows(b, Collected(events));
      FoldTallies(b, events, k);
      FoldMakesBuckets(b, events, k);
      if retention.Some? {
        ExpireIsByDay(folded, now, retention.value, k);
        assert UtcDay(now) * SECONDS_PER_DAY <= now < (UtcDay(now) + 1) * SECONDS_PER_DAY;
      }
    }
  }

  lemma {:induction false} CollectedEmptyIff(events: seq<Stamped>)
    ensures Collected(events) == [] <==> forall i :: 0 <= i < |events| ==> !events[i].event.Download?
    decreases |events|
  {
    if events != [] {
      var n := |events| - 1;
      CollectedEmptyIff(events[..n]);
      assert Collect(events[n]) == [] <==> !events[n].event.Download?;
      forall i | 0 <= i < n ensures events[..n][i] == events[i] {}
    }
  }

  function DailyRun(b: Buckets, steps: seq<Step>, retention: Option<nat>): Buckets
    decreases |steps|
  {
    if steps == [] then b else DailyStep(DailyRun(b, steps[..|steps| - 1], retention), steps[|steps| - 1], retention)
  }

  function AllRows(steps: seq<Step>): seq<DailyRow>
    decreases |steps|
  {
    if steps == [] then [] else AllRows(steps[..|steps| - 1]) + RowsOf(steps[|steps| - 1])
  }

  /** The clock at the last step that expires anything. */
  function LastExpiry(steps: seq<Step>): Option<int>
    decreases |steps|
  {
    if steps == [] then None
    else
      var last := steps[|steps| - 1];
      if Expires(last) then Some(last.now) else LastExpiry(steps[..|steps| - 1])
  }

  /** The clock does not go back between expiries; what it reads elsewhere does not matter. */
  ghost predicate ClockNondecreasing(steps: seq<Step>) {
    forall i, j :: 0 <= i < j < |steps| && Expires(steps[i]) && Expires(steps[j]) ==> steps[i].now <= steps[j].now
  }

  lemma {:induction false} LastExpiryIsAStep(steps: seq<Step>)
    requires LastExpiry(steps).Some?
    ensures exists i :: 0 <= i < |steps| && Expires(steps[i]) && steps[i].now == LastExpiry(steps).value
    decreases |steps|
  {
    var n := |steps| - 1;
    if !Expires(steps[n]) {
      LastExpiryIsAStep(steps[..n]);
      var i :| 0 <= i < n && Expires(steps[..n][i]) && steps[..n][i].now == LastExpiry(steps).value;
      assert steps[i] == steps[..n][i];
    }
  }

  lemma {:induction false} NoExpiryNoRows(steps: seq<Step>)
    requires LastExpiry(steps).None?
    ensures AllRows(steps) == []
    decreases |steps|
  {
    if steps != [] { NoExpiryNoRows(steps[..|steps| - 1]); }
  }

  /** Folding everything and expiring once, at the last step that expires. */
  function FoldThenExpire(b: Buckets, steps: seq<Step>, days: nat): Buckets {
    var folded := FoldRows(b, AllRows(steps));
    if LastExpiry(steps).Some? then Expire(folded, LastExpiry(steps).value, days) else folded
  }

  lemma ClockIsPastLastExpiry(steps: seq<Step>, n: nat)
    requires n < |steps| && ClockNondecreasing(steps) && LastExpiry(steps[..n]).Some? && Expires(steps[n])
    ensures LastExpiry(steps[..n]).value <= steps[n].now
  {
    LastExpiryIsAStep(steps[..n]);
    var i :| 0 <= i < n && Expires(steps[..n][i]) && steps[..n][i].now == LastExpiry(steps[..n]).value;
    assert steps[i] == steps[..n][i];
  }

  /** However the events are split into batches, and wherever restarts fall, expiring at every step gives the buckets of
      one fold and one expiry. */
  lemma {:induction false} BatchingIsOrderSafe(b: Buckets, steps: seq<Step>, days: nat)
    requires ClockNondecreasing(steps)
    ensures DailyRun(b, steps, Some(days)) == FoldThenExpire(b, steps, days)
    decreases |steps|
  {
    if steps != [] {
      var n := |steps| - 1;
      var before, last := steps[..n], steps[n];
      BatchingIsOrderSafe(b, before, days);
      FoldConcat(b, AllRows(before), RowsOf(last));
      if LastExpiry(before).Some? && Expires(last) {
        ClockIsPastLastExpiry(steps, n);
        EarlierExpiryIsAbsorbed(FoldRows(b, AllRows(before)), RowsOf(last), LastExpiry(before).value, last.now, days);
      }
    }
  }

  lemma SplitsAgree(b: Buckets, one: seq<Step>, other: seq<Step>, days: nat)
    requires ClockNondecreasing(one) && ClockNondecreasing(other)
    requires AllRows(one) == AllRows(other) && LastExpiry(one) == LastExpiry(other)
    ensures DailyRun(b, one, Some(days)) == DailyRun(b, other, Some(days))
  {
    BatchingIsOrderSafe(b, one, days);
    BatchingIsOrderSafe(b, other, days);
  }

  /** Without retention a run is one fold. */
  lemma {:induction false} UnlimitedRunIsOneFold(b: Buckets, steps: seq<Step>)
    ensures DailyRun(b, steps, None) == FoldRows(b, AllRows(steps))
    decreases |steps|
  {
    if steps != [] {
      var n := |steps| - 1;
      UnlimitedRunIsOneFold(b, steps[..n]);
      FoldConcat(b, AllRows(steps[..n]), RowsOf(steps[n]));
    }
  }

  // ----- The daily snapshot -----

  ghost predicate Enumerates(rows: seq<DailyRow>, b: Buckets) {
    && (forall i, j :: 0 <= i < j < |rows| ==> rows[i].key != rows[j].key)
    && (forall i :: 0 <= i < |rows| ==> Entry(b, rows[i].key) == Some(rows[i].usage))
    && (forall k :: k in b ==> exists i :: 0 <= i < |rows| && rows[i].key == k)
  }

  /** The rows of the buckets, picked off one by one. */
  method DailyRows(b: Buckets) returns (rows: seq<DailyRow>)
    ensures Enumerates(rows, b)
  {
    rows := [];
    var left := b;
    while left != map[]
      invariant forall k :: k in left ==> Entry(b, k) == Entry(left, k)
      invariant Enumerates(rows, b - left.Keys)
      decreases |left|
    {
      var k :| k in left;
      EnumeratesOneMore(rows, b, left, k);
      rows := rows + [DailyRow(k, left[k])];
      left := left - {k};
    }
    assert b - left.Keys == b;
  }

  lemma EnumeratesOneMore(rows: seq<DailyRow>, b: Buckets, left: Buckets, k: DailyKey)
    requires k in left && (forall l :: l in left ==> Entry(b, l) == Entry(left, l)) && Enumerates(rows, b - left.Keys)
    ensures Enumerates(rows + [DailyRow(k, left[k])], b - (left - {k}).Keys)
  {
    var all, more := rows + [DailyRow(k, left[k])], b - (left - {k}).Keys;
    assert Entry(b, k) == Entry(left, k);
    forall i | 0 <= i < |all| ensures Entry(more, all[i].key) == Some(all[i].usage) && (i < |rows| ==> all[i].key != k) {
      if i < |rows| { assert Entry(b - left.Keys, rows[i].key) == Some(rows[i].usage); }
    }
    forall l | l in more ensures exists i :: 0 <= i < |all| && all[i].key == l {
      if l == k {
        assert all[|rows|].key == l;
      } else {
        assert l in b - left.Keys;
        var i :| 0 <= i < |rows| && rows[i].key == l;
        assert all[i].key == l;
      }
    }
  }

  lemma {:induction false} FoldDistinct(rows: seq<DailyRow>, k: DailyKey)
    requires forall i, j :: 0 <= i < j < |rows| ==> rows[i].key != rows[j].key
    ensures k in FoldRows(map[], rows) ==> exists i :: 0 <= i < |rows| && rows[i].key == k
    ensures forall i :: 0 <= i < |rows| && rows[i].key == k ==> Entry(FoldRows(map[], rows), k) == Some(rows[i].usage)
    decreases |rows|
  {
    if rows != [] {
      var n := |rows| - 1;
      FoldDistinct(rows[..n], k);
      if rows[n].key != k {
        if k in FoldRows(map[], rows) {
          var i :| 0 <= i < n && rows[..n][i].key == k;
          assert rows[i].key == k;
        }
        forall i | 0 <= i < |rows| && rows[i].key == k ensures Entry(FoldRows(map[], rows), k) == Some(rows[i].usage) {
          assert rows[..n][i] == rows[i];
        }
      }
    }
  }

  /** Restoring the rows of a snapshot, in any order, gives the buckets back. */
  lemma RestoreDailyRoundTrip(b: Buckets, rows: seq<DailyRow>)
    requires Enumerates(rows, b)
    ensures FoldRows(map[], rows) == b
  {
    var r := FoldRows(map[], rows);
    forall k ensures Entry(r, k) == Entry(b, k) {
      FoldDistinct(rows, k);
      if k in b || k in r {
        var i :| 0 <= i < |rows| && rows[i].key == k;
        assert Entry(b, rows[i].key) == Some(rows[i].usage);
      }
    }
    SameEntries(r, b);
  }

  /** The live buckets beside the ones saved last. */
  datatype Disk = Disk(live: Buckets, saved: Buckets)

  /** Only a batch with a download saves; a start reads what was saved and expires, without saving. */
  function DiskStep(d: Disk, s: Step, retention: Option<nat>): Disk {
    if !s.Batch? then Disk(Retained(d.saved, s.now, retention), d.saved)
    else if RowsOf(s) == [] then d
    else
      var live := Retained(FoldRows(d.live, RowsOf(s)), s.now, retention);
      Disk(live, live)
  }

  function DiskRun(b: Buckets, steps: seq<Step>, retention: Option<nat>): Disk
    decreases |steps|
  {
    if steps == [] then Disk(b, b) else DiskStep(DiskRun(b, steps[..|steps| - 1], retention), steps[|steps| - 1], retention)
  }

  /** What a start does with the saved rows is the restart step. */
  lemma RestartRestores(d: Disk, rows: seq<DailyRow>, now: int, retention: Option<nat>)
    requires Enumerates(rows, d.saved)
    ensures Retained(FoldRows(map[], rows), now, retention) == DiskStep(d, Restart(now), retention).live
  {
    RestoreDailyRoundTrip(d.saved, rows);
  }

  /** The live buckets are the saved ones, expired as of the last expiry. */
  ghost predicate Behind(d: Disk, steps: seq<Step>, retention: Option<nat>) {
    d.live == if LastExpiry(steps).Some? then Retained(d.saved, LastExpiry(steps).value, retention) else d.saved
  }

  /** Nothing is lost by saving only after downloads: across any restarts the live buckets are those of the run. */
  lemma {:induction false} SavedIsEnough(b: Buckets, steps: seq<Step>, retention: Option<nat>)
    requires retention.Some? ==> ClockNondecreasing(steps)
    ensures DiskRun(b, steps, retention).live == DailyRun(b, steps, retention) && Behind(DiskRun(b, steps, retention), steps, retention)
    decreases |steps|
  {
    if steps != [] {
      var n := |steps| - 1;
      SavedIsEnough(b, steps[..n], retention);
      var d := DiskRun(b, steps[..n], retention);
      var last := steps[n];
      if !last.Batch? && LastExpiry(steps[..n]).Some? && retention.Some? { ClockIsPastLastExpiry(steps, n); }
    }
  }

  // ----- Buckets and tree agree -----

  function ReadUsage(u: Usage, which: Counter): nat
    requires IsUsage(which)
  {
    if which == Downloads then u.downloads else u.bytes
  }

  /** The buckets of one project, whatever their day, version or source. */
  function BucketsOf(b: Buckets, repository: string, project: string, which: Counter): map<DailyKey, nat>
    requires IsUsage(which)
  {
    map k | k in b && k.repository == repository && k.project == project :: ReadUsage(b[k], which)
  }

  lemma AddSums(b: Buckets, row: DailyRow, r: string, p: string, w: Counter)
    requires IsUsage(w)
    ensures Sum(BucketsOf(Add(b, row), r, p, w)) ==
      Sum(BucketsOf(b, r, p, w)) + if row.key.repository == r && row.key.project == p then ReadUsage(row.usage, w) else 0
  {
    var before, after := BucketsOf(b, r, p, w), BucketsOf(Add(b, row), r, p, w);
    if row.key.repository == r && row.key.project == p {
      var v := ReadUsage(Add(b, row)[row.key], w);
      assert after == before[row.key := v];
      SumPut(before, row.key, v);
    } else {
      assert after == before;
    }
  }

  /** What rows hold for one project. */
  function RowTotal(rows: seq<DailyRow>, r: string, p: string, w: Counter): nat
    requires IsUsage(w)
    decreases |rows|
  {
    if rows == [] then 0
    else
      var last := rows[|rows| - 1];
      RowTotal(rows[..|rows| - 1], r, p, w) + if last.key.repository == r && last.key.project == p then ReadUsage(last.usage, w) else 0
  }

  lemma {:induction false} FoldSums(b: Buckets, rows: seq<DailyRow>, r: string, p: string, w: Counter)
    requires IsUsage(w)
    ensures Sum(BucketsOf(FoldRows(b, rows), r, p, w)) == Sum(BucketsOf(b, r, p, w)) + RowTotal(rows, r, p, w)
    decreases |rows|
  {
    if rows != [] {
      var n := |rows| - 1;
      FoldSums(b, rows[..n], r, p, w);
      AddSums(FoldRows(b, rows[..n]), rows[n], r, p, w);
    }
  }

  lemma {:induction false} RowTotalAppend(x: seq<DailyRow>, y: seq<DailyRow>, r: string, p: string, w: Counter)
    requires IsUsage(w)
    ensures RowTotal(x + y, r, p, w) == RowTotal(x, r, p, w) + RowTotal(y, r, p, w)
    decreases |y|
  {
    if y == [] {
      assert x + y == x;
    } else {
      var n := |y| - 1;
      RowTotalAppend(x, y[..n], r, p, w);
      assert (x + y)[..|x + y| - 1] == x + y[..n];
    }
  }

  function Events(events: seq<Stamped>): seq<Event> { seq(|events|, i requires 0 <= i < |events| => events[i].event) }

  lemma CollectTotals(s: Stamped, r: string, p: string, w: Counter)
    requires IsUsage(w)
    ensures RowTotal(Collect(s), r, p, w) == if Covers(OfProject(r, p), s.event) then Adds(s.event, w) else 0
  {
    if s.event.Download? { assert Collect(s) == [Collect(s)[0]] && Collect(s)[..0] == []; }
  }

  /** The tree counts for a project what the collected rows hold for it. */
  lemma {:induction false} CollectedTotals(t: Tree, events: seq<Stamped>, r: string, p: string, w: Counter)
    requires IsUsage(w)
    ensures Total(ApplyAll(t, Events(events)), OfProject(r, p), w) == Total(t, OfProject(r, p), w) + RowTotal(Collected(events), r, p, w)
    decreases |events|
  {
    if events != [] {
      var n := |events| - 1;
      CollectedTotals(t, events[..n], r, p, w);
      assert Events(events)[..n] == Events(events[..n]);
      ApplyAddsToProject(ApplyAll(t, Events(events[..n])), events[n].event, OfProject(r, p), w);
      CollectTotals(events[n], r, p, w);
      RowTotalAppend(Collected(events[..n]), Collect(events[n]), r, p, w);
    }
  }

  /** What a step does to the tree and to the snapshot saved last: a batch with a download saves one, a start restores
      it, however many other events came since. */
  ghost predicate TreeStep(t: Tree, saved: seq<FileRow>, s: Step, after: Tree, savedAfter: seq<FileRow>) {
    match s
    case Batch(events, _) => after == ApplyAll(t, Events(events)) && TreeSaved(t, saved, events, savedAfter)
    case Restart(_) => after == Restore(map[], saved) && savedAfter == saved
    case Torn(events, _) => after == Restore(map[], savedAfter) && TreeSaved(t, saved, events, savedAfter)
  }

  ghost predicate TreeSaved(t: Tree, saved: seq<FileRow>, events: seq<Stamped>, savedAfter: seq<FileRow>) {
    if Collected(events) == [] then savedAfter == saved else IsSnapshot(ApplyAll(t, Events(events)), savedAfter)
  }

  ghost predicate TreeRun(trees: seq<Tree>, saves: seq<seq<FileRow>>, steps: seq<Step>) {
    && |trees| == |saves| == |steps| + 1 && trees[0] == map[] && saves[0] == []
    && forall i :: 0 <= i < |steps| ==> TreeStep(trees[i], saves[i], steps[i], trees[i + 1], saves[i + 1])
  }

  lemma {:induction false} NothingCollected(events: seq<Stamped>)
    requires Collected(events) == []
    ensures forall i :: 0 <= i < |events| ==> !events[i].event.Download?
    decreases |events|
  {
    if events != [] {
      var n := |events| - 1;
      NothingCollected(events[..n]);
      forall i | 0 <= i < n ensures events[..n][i] == events[i] {}
    }
  }

  lemma SavedListsUsage(t: Tree, saved: seq<FileRow>, events: seq<Stamped>, savedAfter: seq<FileRow>)
    requires ListsUsage(t, saved) && TreeSaved(t, saved, events, savedAfter)
    ensures ListsUsage(ApplyAll(t, Events(events)), savedAfter)
  {
    var after := ApplyAll(t, Events(events));
    if Collected(events) == [] {
      NothingCollected(events);
      forall path, w | IsUsage(w) ensures Listed(saved, path, w) == UsageOf(after, path, w) {
        OtherEventsKeepUsage(t, Events(events), path, w);
      }
    } else {
      SnapshotListsUsage(after, savedAfter);
    }
  }

  lemma RestoredListsUsage(saved: seq<FileRow>)
    ensures ListsUsage(Restore(map[], saved), saved)
  {
    forall path, w | IsUsage(w) ensures Listed(saved, path, w) == UsageOf(Restore(map[], saved), path, w) {
      RestoreAddsFile(map[], saved, path, w);
    }
  }

  /** The saved snapshot lists the usage of the live tree. */
  lemma StepListsUsage(t: Tree, saved: seq<FileRow>, s: Step, after: Tree, savedAfter: seq<FileRow>)
    requires ListsUsage(t, saved) && TreeStep(t, saved, s, after, savedAfter)
    ensures ListsUsage(after, savedAfter)
  {
    if s.Batch? { SavedListsUsage(t, saved, s.events, savedAfter); } else { RestoredListsUsage(savedAfter); }
  }

  /** What a step adds to a project's totals in the tree. */
  function StepTotal(s: Step, r: string, p: string, w: Counter): nat
    requires IsUsage(w)
  {
    if s.Restart? then 0 else RowTotal(Collected(s.events), r, p, w)
  }

  lemma StepAddsTotal(t: Tree, saved: seq<FileRow>, s: Step, after: Tree, savedAfter: seq<FileRow>, r: string, p: string, w: Counter)
    requires IsUsage(w) && Conserves(t) && ListsUsage(t, saved) && TreeStep(t, saved, s, after, savedAfter)
    ensures Total(after, OfProject(r, p), w) == Total(t, OfProject(r, p), w) + StepTotal(s, r, p, w)
  {
    match s
    case Batch(events, _) => CollectedTotals(t, events, r, p, w);
    case Restart(_) => RestoreReproduces(t, saved, Path(r, p, ""), w);
    case Torn(events, _) =>
      CollectedTotals(t, events, r, p, w);
      ApplyAllConserves(t, Events(events));
      SavedListsUsage(t, saved, events, savedAfter);
      RestoreReproduces(ApplyAll(t, Events(events)), savedAfter, Path(r, p, ""), w);
  }

  lemma StepConserves(t: Tree, saved: seq<FileRow>, s: Step, after: Tree, savedAfter: seq<FileRow>)
    requires Conserves(t) && TreeStep(t, saved, s, after, savedAfter)
    ensures Conserves(after)
  {
    if s.Batch? { ApplyAllConserves(t, Events(s.events)); } else { RestoreConserves(map[], savedAfter); }
  }

  /** The downloads of torn drains: in the saved tree, and in no saved bucket. */
  function Missing(steps: seq<Step>, r: string, p: string, w: Counter): nat
    requires IsUsage(w)
    decreases |steps|
  {
    if steps == [] then 0
    else
      var last := steps[|steps| - 1];
      Missing(steps[..|steps| - 1], r, p, w) + if last.Torn? then RowTotal(Collected(last.events), r, p, w) else 0
  }

  lemma StepSums(b: Buckets, s: Step, r: string, p: string, w: Counter)
    requires IsUsage(w)
    ensures Sum(BucketsOf(DailyStep(b, s, None), r, p, w)) ==
      Sum(BucketsOf(b, r, p, w)) + if s.Batch? then StepTotal(s, r, p, w) else 0
  {
    FoldSums(b, RowsOf(s), r, p, w);
  }

  /** Without retention, after any batches, restarts and torn drains, the live buckets of each project sum to its totals
      in the tree, less exactly what torn drains kept from the buckets. */
  lemma BucketsSumToTree(trees: seq<Tree>, saves: seq<seq<FileRow>>, steps: seq<Step>, r: string, p: string, w: Counter)
    requires TreeRun(trees, saves, steps) && IsUsage(w)
    ensures Conserves(trees[|steps|])
    ensures Sum(BucketsOf(DiskRun(map[], steps, None).live, r, p, w)) + Missing(steps, r, p, w) == Read(ProjectOf(trees[|steps|], r, p).totals, w)
  {
    RunSums(trees, saves, steps, r, p, w);
    SavedIsEnough(map[], steps, None);
  }

  lemma {:induction false} RunSums(trees: seq<Tree>, saves: seq<seq<FileRow>>, steps: seq<Step>, r: string, p: string, w: Counter)
    requires TreeRun(trees, saves, steps) && IsUsage(w)
    ensures Conserves(trees[|steps|]) && ListsUsage(trees[|steps|], saves[|steps|])
    ensures Sum(BucketsOf(DailyRun(map[], steps, None), r, p, w)) + Missing(steps, r, p, w) == Total(trees[|steps|], OfProject(r, p), w)
    decreases |steps|
  {
    if steps == [] {
      assert BucketsOf(map[], r, p, w) == map[];
    } else {
      var n := |steps| - 1;
      RunSums(trees[..n + 1], saves[..n + 1], steps[..n], r, p, w);
      StepListsUsage(trees[n], saves[n], steps[n], trees[n + 1], saves[n + 1]);
      StepConserves(trees[n], saves[n], steps[n], trees[n + 1], saves[n + 1]);
      StepAddsTotal(trees[n], saves[n], steps[n], trees[n + 1], saves[n + 1], r, p, w);
      StepSums(DailyRun(map[], steps[..n], None), steps[n], r, p, w);
    }
  }

  /** This step is a torn drain that held a download of the project. */
  predicate TornWith(s: Step, r: string, p: string) { s.Torn? && RowTotal(Collected(s.events), r, p, Downloads) > 0 }

  /** So the two agree for a project exactly when no torn drain held a download of it. */
  lemma {:induction false} NothingMissingIff(steps: seq<Step>, r: string, p: string)
    ensures Missing(steps, r, p, Downloads) == 0 <==> forall i :: 0 <= i < |steps| ==> !TornWith(steps[i], r, p)
    decreases |steps|
  {
    if steps != [] {
      var n := |steps| - 1;
      NothingMissingIff(steps[..n], r, p);
      forall i | 0 <= i < n ensures steps[..n][i] == steps[i] {}
    }
  }
}
