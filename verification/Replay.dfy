/** The replay table of the identity exchange: a bounded map that purges expired entries on every use
    (crates/peryx-identity/src/oidc.rs). */
module Replay {
  import opened Common

  type Table = map<(string, string), int>

  function Purged(table: Table, now: int): Table { map k | k in table && table[k] > now :: table[k] }

  datatype Consumed = Accepted | Replayed | Full

  function Consume(table: Table, capacity: nat, issuer: string, jti: string, expires: int, now: int): (Table, Consumed) {
    var live := Purged(table, now);
    if (issuer, jti) in live then (live, Replayed)
    else if |live| >= capacity then (live, Full)
    else (live[(issuer, jti) := expires], Accepted)
  }

  /** The locked table of the runtime. */
  class ReplayTable {
    const capacity: nat
    var table: Table

    constructor (capacity: nat)
      ensures this.capacity == capacity && table == map[]
    {
      this.capacity, table := capacity, map[];
    }

    method ConsumeReplay(issuer: string, jti: string, expires: int, now: int) returns (r: Consumed)
      modifies this
      ensures (table, r) == Consume(old(table), capacity, issuer, jti, expires, now)
      ensures old(|table| <= capacity) ==> |table| <= capacity
    {
      PurgeShrinks(table, now);
      table := map k | k in table && table[k] > now :: table[k];
      var key := (issuer, jti);
      if key in table { return Replayed; }
      if |table| >= capacity { return Full; }
      table := table[key := expires];
      r := Accepted;
    }
  }

  lemma PurgeShrinks(table: Table, now: int)
    ensures |Purged(table, now)| <= |table|
  {
    var live := Purged(table, now);
    assert live.Keys <= table.Keys;
    SubsetSize(live.Keys, table.Keys);
    assert |live| == |live.Keys| && |table| == |table.Keys|;
  }

  lemma {:induction false} SubsetSize<T>(a: set<T>, b: set<T>)
    requires a <= b
    ensures |a| <= |b|
    decreases a
  {
    if a != {} {
      var x :| x in a;
      SubsetSize(a - {x}, b - {x});
    }
  }

  // ----- Runs -----

  /** What one request does to the table: nothing, or one attempt to spend an identity. */
  datatype Step = Idle | Attempt(issuer: string, jti: string, expires: int, now: int) {
    function Key(): (string, string)
      requires Attempt?
    {
      (issuer, jti)
    }
  }

  function Apply(table: Table, capacity: nat, s: Step): Table {
    match s
    case Idle => table
    case Attempt(issuer, jti, expires, now) => Consume(table, capacity, issuer, jti, expires, now).0
  }

  /** The table after the first `n` steps of a run that starts empty. */
  function TableAfter(capacity: nat, steps: seq<Step>, n: nat): Table
    requires n <= |steps|
  {
    if n == 0 then map[] else Apply(TableAfter(capacity, steps, n - 1), capacity, steps[n - 1])
  }

  function Answer(capacity: nat, steps: seq<Step>, i: nat): Consumed
    requires i < |steps| && steps[i].Attempt?
  {
    Consume(TableAfter(capacity, steps, i), capacity, steps[i].issuer, steps[i].jti, steps[i].expires, steps[i].now).1
  }

  predicate AcceptedAt(capacity: nat, steps: seq<Step>, i: nat)
    requires i < |steps|
  {
    steps[i].Attempt? && Answer(capacity, steps, i).Accepted?
  }

  /** The table never holds more entries than its capacity. */
  lemma {:induction false} TableIsBounded(capacity: nat, steps: seq<Step>, n: nat)
    requires n <= |steps|
    ensures |TableAfter(capacity, steps, n)| <= capacity
    decreases n
  {
    if n > 0 {
      TableIsBounded(capacity, steps, n - 1);
      if steps[n - 1].Attempt? { PurgeShrinks(TableAfter(capacity, steps, n - 1), steps[n - 1].now); }
    }
  }

  /** A step after `i`, up to `j`, whose clock had reached `expires`, so that its purge dropped such entries. */
  ghost predicate PurgedBetween(steps: seq<Step>, i: nat, j: nat, expires: int)
    requires j < |steps|
  {
    exists k :: i < k <= j && steps[k].Attempt? && steps[k].now >= expires
  }

  /** An accepted entry stays in the table, unchanged, until a step with a later clock purges it. */
  lemma {:induction false} EntryStays(capacity: nat, steps: seq<Step>, i: nat, n: nat)
    requires i < n <= |steps| && AcceptedAt(capacity, steps, i)
    requires forall k :: i < k < n && steps[k].Attempt? ==> steps[k].now < steps[i].expires
    ensures var t := TableAfter(capacity, steps, n); steps[i].Key() in t && t[steps[i].Key()] == steps[i].expires
    decreases n
  {
    if i + 1 < n { EntryStays(capacity, steps, i, n - 1); }
  }

  /** No step in between spends the identity of `i` again. */
  ghost predicate OnlySpentAt(capacity: nat, steps: seq<Step>, i: nat, n: nat)
    requires i < |steps| && n <= |steps| && steps[i].Attempt?
  {
    forall k :: i < k < n && AcceptedAt(capacity, steps, k) ==> steps[k].Key() != steps[i].Key()
  }

  /** While nothing else spends the identity, the table holds at most the original entry for it. */
  lemma {:induction false} EntryIsOld(capacity: nat, steps: seq<Step>, i: nat, n: nat)
    requires i < n <= |steps| && AcceptedAt(capacity, steps, i) && OnlySpentAt(capacity, steps, i, n)
    ensures steps[i].Key() in TableAfter(capacity, steps, n) ==> TableAfter(capacity, steps, n)[steps[i].Key()] == steps[i].expires
    decreases n
  {
    if i + 1 < n { EntryIsOld(capacity, steps, i, n - 1); }
  }

  lemma {:induction false} AbsentStays(capacity: nat, steps: seq<Step>, i: nat, m: nat, n: nat)
    requires i < m <= n <= |steps| && AcceptedAt(capacity, steps, i) && OnlySpentAt(capacity, steps, i, n)
    requires steps[i].Key() !in TableAfter(capacity, steps, m)
    ensures steps[i].Key() !in TableAfter(capacity, steps, n)
    decreases n
  {
    if m < n {
      AbsentStays(capacity, steps, i, m, n - 1);
    }
  }

  /** On any clock, between two attempts at one identity with no other success for it, the second is refused as a replay
      exactly when no purge past the first expiry ran in between. */
  lemma ReplayIffNotPurged(capacity: nat, steps: seq<Step>, i: nat, j: nat)
    requires i < j < |steps| && AcceptedAt(capacity, steps, i) && OnlySpentAt(capacity, steps, i, j)
    requires steps[j].Attempt? && steps[j].Key() == steps[i].Key()
    ensures Answer(capacity, steps, j) == Replayed <==> !PurgedBetween(steps, i, j, steps[i].expires)
  {
    if PurgedBetween(steps, i, j, steps[i].expires) {
      var k :| i < k <= j && steps[k].Attempt? && steps[k].now >= steps[i].expires;
      EntryIsOld(capacity, steps, i, k);
      if k < j {
        AbsentStays(capacity, steps, i, k + 1, j);
      }
    } else {
      EntryStays(capacity, steps, i, j);
    }
  }

  /** Step `i` spent its identity, and no attempt since, up to `n`, has read a clock at or past that expiry. */
  ghost predicate Standing(capacity: nat, steps: seq<Step>, i: int, n: nat)
    requires n <= |steps|
  {
    0 <= i < n && AcceptedAt(capacity, steps, i) && forall k :: i < k < n && steps[k].Attempt? ==> steps[k].now < steps[i].expires
  }

  lemma {:induction false} EntryIsStanding(capacity: nat, steps: seq<Step>, n: nat, key: (string, string)) returns (i: int)
    requires n <= |steps| && key in TableAfter(capacity, steps, n)
    ensures Standing(capacity, steps, i, n) && steps[i].Key() == key && steps[i].expires == TableAfter(capacity, steps, n)[key]
    decreases n
  {
    if AcceptedAt(capacity, steps, n - 1) && key == steps[n - 1].Key() {
      i := n - 1;
    } else {
      i := EntryIsStanding(capacity, steps, n - 1, key);
    }
  }

  /** The table is the history: an identity is in it, under its expiry, exactly when some step spent it and no attempt
      since has outlived it. */
  lemma TableIsHistory(capacity: nat, steps: seq<Step>, n: nat, key: (string, string), expires: int)
    requires n <= |steps|
    ensures key in TableAfter(capacity, steps, n) && TableAfter(capacity, steps, n)[key] == expires <==>
      exists i :: Standing(capacity, steps, i, n) && steps[i].Key() == key && steps[i].expires == expires
  {
    if key in TableAfter(capacity, steps, n) { var _ := EntryIsStanding(capacity, steps, n, key); }
    if i :| Standing(capacity, steps, i, n) && steps[i].Key() == key && steps[i].expires == expires {
      EntryStays(capacity, steps, i, n);
    }
  }

  /** The identities spent before attempt `j` that neither an attempt since nor its own clock has outlived. */
  ghost function LiveBefore(capacity: nat, steps: seq<Step>, j: nat): set<(string, string)>
    requires j < |steps| && steps[j].Attempt?
  {
    set i | 0 <= i < j && Standing(capacity, steps, i, j) && steps[j].now < steps[i].expires :: steps[i].Key()
  }

  lemma LiveIsPurged(capacity: nat, steps: seq<Step>, j: nat)
    requires j < |steps| && steps[j].Attempt?
    ensures Purged(TableAfter(capacity, steps, j), steps[j].now).Keys == LiveBefore(capacity, steps, j)
  {
    var live := Purged(TableAfter(capacity, steps, j), steps[j].now);
    forall key | key in live ensures key in LiveBefore(capacity, steps, j) {
      var i := EntryIsStanding(capacity, steps, j, key);
    }
    forall key | key in LiveBefore(capacity, steps, j) ensures key in live {
      var i :| 0 <= i < j && Standing(capacity, steps, i, j) && steps[j].now < steps[i].expires && steps[i].Key() == key;
      EntryStays(capacity, steps, i, j);
    }
  }

  /** Every answer, from the history: a live identity is a replay; otherwise the attempt is put off exactly when as many
      identities are live as the table may hold; otherwise it is accepted. */
  lemma AnswerExact(capacity: nat, steps: seq<Step>, j: nat)
    requires j < |steps| && steps[j].Attempt?
    ensures var live := LiveBefore(capacity, steps, j);
      Answer(capacity, steps, j) ==
        if steps[j].Key() in live then Replayed else if |live| >= capacity then Full else Accepted
  {
    LiveIsPurged(capacity, steps, j);
    var purged := Purged(TableAfter(capacity, steps, j), steps[j].now);
    assert |purged| == |purged.Keys|;
  }

  /** On any clock, two successes for one identity have a purge past the first expiry between them. */
  lemma SecondSuccessNeedsPurge(capacity: nat, steps: seq<Step>, i: nat, j: nat)
    requires i < j < |steps| && AcceptedAt(capacity, steps, i) && AcceptedAt(capacity, steps, j) && steps[i].Key() == steps[j].Key()
    ensures PurgedBetween(steps, i, j, steps[i].expires)
  {
    if !PurgedBetween(steps, i, j, steps[i].expires) {
      EntryStays(capacity, steps, i, j);
      assert false;
    }
  }

  /** No entry outlives the last attempt by more than the longest lifetime an attempt may have. */
  lemma {:induction false} EntriesAreShortLived(capacity: nat, steps: seq<Step>, n: nat, lifetime: int, now: int, key: (string, string))
    requires n <= |steps| && key in TableAfter(capacity, steps, n)
    requires forall i :: 0 <= i < n && steps[i].Attempt? ==> steps[i].expires <= steps[i].now + lifetime && steps[i].now <= now
    ensures TableAfter(capacity, steps, n)[key] <= now + lifetime
    decreases n
  {
    if key in TableAfter(capacity, steps, n - 1) { EntriesAreShortLived(capacity, steps, n - 1, lifetime, now, key); }
  }

  /** A clock that goes back breaks single use: an identity purged by a later clock is accepted again by a step whose
      clock was read before its expiry. */
  lemma BackwardClockReplays()
    ensures var steps := [Attempt("ci", "a", 100, 90), Attempt("ci", "b", 200, 150), Attempt("ci", "a", 100, 95)];
      AcceptedAt(10, steps, 0) && AcceptedAt(10, steps, 2)
  {
    var steps := [Attempt("ci", "a", 100, 90), Attempt("ci", "b", 200, 150), Attempt("ci", "a", 100, 95)];
    var t0, t1, t2 := TableAfter(10, steps, 0), TableAfter(10, steps, 1), TableAfter(10, steps, 2);
    assert Purged(t0, 90) == t0 == map[];
    assert t1 == t0[("ci", "a") := 100];
    assert Purged(t1, 150) == map[];
    assert t2 == Purged(t1, 150)[("ci", "b") := 200];
    assert Purged(t2, 95) == t2 && ("ci", "a") !in t2 && |t2| == 1;
  }
}
