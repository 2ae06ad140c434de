/** Project patterns: the wildcard semantics, the backtracking matcher and the residual simulation
    (crates/peryx-identity/src/acl.rs). */
module Globs {
  import opened Common

  const STAR: char := '*'

  /** The meaning of a pattern: `*` stands for any run of bytes, every other byte for itself. */
  predicate Matches(p: string, s: string)
    decreases |p| + |s|
  {
    if p == "" then s == ""
    else if p[0] == STAR then Matches(p[1..], s) || (s != "" && Matches(p, s[1..]))
    else s != "" && p[0] == s[0] && Matches(p[1..], s[1..])
  }

  predicate StarFree(p: string) {
    forall i :: 0 <= i < |p| ==> p[i] != STAR
  }

  predicate AllStars(p: string) {
    forall i :: 0 <= i < |p| ==> p[i] == STAR
  }

  // ----- Algebra of the semantics -----

  /** A leading `*` swallows a run of any length. */
  lemma {:induction false} StarIsAnyRun(p: string, s: string)
    requires p != "" && p[0] == STAR
    ensures Matches(p, s) <==> exists k :: 0 <= k <= |s| && Matches(p[1..], s[k..])
    decreases |s|
  {
    assert s[0..] == s;
    if s != "" {
      var t := s[1..];
      StarIsAnyRun(p, t);
      forall k | 0 <= k <= |t| ensures t[k..] == s[k + 1..] {}
      if Matches(p, t) {
        var k :| 0 <= k <= |t| && Matches(p[1..], t[k..]);
        assert Matches(p[1..], s[k + 1..]);
      }
      if k :| 0 <= k <= |s| && Matches(p[1..], s[k..]) {
        if k > 0 {
          assert s[k..] == t[k - 1..];
        }
      }
    }
  }

  /** A star-free prefix matches exactly itself. */
  lemma {:induction false} LiteralPrefix(l: string, p: string, s: string)
    requires StarFree(l)
    ensures Matches(l + p, s) <==> |l| <= |s| && s[..|l|] == l && Matches(p, s[|l|..])
    decreases |l|
  {
    if l == "" {
      assert l + p == p && s[0..] == s;
    } else {
      assert (l + p)[1..] == l[1..] + p;
      if s != "" && s[0] == l[0] {
        LiteralPrefix(l[1..], p, s[1..]);
        if |l| <= |s| {
          assert s[1..][..|l| - 1] == s[..|l|][1..];
          assert s[1..][|l| - 1..] == s[|l|..];
          assert l == [l[0]] + l[1..] && s[..|l|] == [s[0]] + s[..|l|][1..];
        }
      } else if |l| <= |s| {
        assert s[..|l|][0] == s[0];
      }
    }
  }

  /** A pattern without a star matches one string, itself. */
  lemma LiteralMatches(l: string, s: string)
    requires StarFree(l)
    ensures Matches(l, s) <==> s == l
  {
    LiteralPrefix(l, "", s);
    assert l + "" == l;
  }

  /** Only a run of stars matches the empty string. */
  lemma {:induction false} EmptyIffAllStars(p: string)
    ensures Matches(p, "") <==> AllStars(p)
    decreases |p|
  {
    if p != "" {
      EmptyIffAllStars(p[1..]);
      assert AllStars(p) <==> p[0] == STAR && AllStars(p[1..]) by {
        if p[0] == STAR && AllStars(p[1..]) {
          forall i | 0 <= i < |p| ensures p[i] == STAR {
            if i > 0 { assert p[i] == p[1..][i - 1]; }
          }
        }
      }
    }
  }

  /** Returning only to the last star loses no match: once the literal between two stars has matched
      at the earliest place, the earlier star need never grow again. */
  lemma {:induction false} LastStarSuffices(l: string, q: string, s: string)
    requires StarFree(l) && l <= s
    requires q != "" && q[0] == STAR
    ensures Matches([STAR] + l + q, s) <==> Matches(q, s[|l|..])
  {
    var p := [STAR] + l + q;
    assert p[1..] == l + q;
    StarIsAnyRun(p, s);
    if Matches(q, s[|l|..]) {
      LiteralPrefix(l, q, s);
      assert s[0..] == s;
      assert Matches(p[1..], s[0..]);
    }
    if Matches(p, s) {
      var k :| 0 <= k <= |s| && Matches(p[1..], s[k..]);
      LiteralPrefix(l, q, s[k..]);
      var u := s[|l|..];
      assert s[k..][|l|..] == u[k..];
      StarSkips(q, u, k);
    }
  }

  /** A pattern that starts with `*` matches every left extension of what it matches. */
  lemma StarSkips(q: string, s: string, k: nat)
    requires q != "" && q[0] == STAR && k <= |s| && Matches(q, s[k..])
    ensures Matches(q, s)
  {
    StarIsAnyRun(q, s[k..]);
    var j :| 0 <= j <= |s[k..]| && Matches(q[1..], s[k..][j..]);
    assert s[k..][j..] == s[k + j..];
    StarIsAnyRun(q, s);
  }

  /** When the text is used up exactly by the literal after the last star, only stars may remain. */
  lemma {:induction false} ExhaustedAfterStar(l: string, q: string)
    requires StarFree(l)
    ensures Matches([STAR] + l + q, l) <==> AllStars(q)
  {
    var p := [STAR] + l + q;
    assert p[1..] == l + q;
    StarIsAnyRun(p, l);
    EmptyIffAllStars(q);
    assert l[0..] == l && l[..|l|] == l && l[|l|..] == "";
    LiteralPrefix(l, q, l);
    if k :| 0 <= k <= |l| && Matches(p[1..], l[k..]) {
      LiteralPrefix(l, q, l[k..]);
      assert k == 0;
    }
  }

  // ----- Glob::matches -----

  /** What the walk knows: with no star behind it, the question has moved to both cursors; with a last star,
      the question sits at that star and the literal after it has matched the text since `resume`. */
  ghost predicate Pending(p: string, s: string, star: Option<nat>, at: nat, resume: nat, cursor: nat) {
    at <= |p| && resume <= cursor <= |s| &&
    match star
    case None => Matches(p, s) <==> Matches(p[at..], s[cursor..])
    case Some(j) =>
      j < at && p[j] == STAR && p[j + 1..at] == s[resume..cursor] && StarFree(p[j + 1..at]) &&
      (Matches(p, s) <==> Matches(p[j..], s[resume..]))
  }

  /** The backtracking walk: on a mismatch return to the last `*` and let it swallow one more byte. */
  method MatchesWalk(pattern: string, project: string) returns (matched: bool)
    ensures matched <==> Matches(pattern, project)
  {
    var at: nat, cursor: nat := 0, 0;
    var star: Option<nat> := None;
    var resume: nat := 0;
    assert pattern[0..] == pattern && project[0..] == project;
    while cursor < |project|
      invariant Pending(pattern, project, star, at, resume, cursor)
      decreases |pattern| - (if star.Some? then star.value as int else -1), |project| - resume, |pattern| - at
    {
      if at < |pattern| && pattern[at] == STAR {
        Restart(pattern, project, star, at, resume, cursor);
        star := Some(at);
        resume := cursor;
        at := at + 1;
      } else if at < |pattern| && pattern[at] == project[cursor] {
        Advance(pattern, project, star, at, resume, cursor);
        at := at + 1;
        cursor := cursor + 1;
      } else if star.Some? {
        Backtrack(pattern, project, star.value, at, resume, cursor);
        at := star.value + 1;
        resume := resume + 1;
        cursor := resume;
      } else {
        return false;
      }
    }
    matched := forall i :: at <= i < |pattern| ==> pattern[i] == STAR;
    Exhausted(pattern, project, star, at, resume);
  }

  /** Meeting a further `*`: the match question moves to it. */
  lemma Restart(p: string, s: string, star: Option<nat>, at: nat, resume: nat, cursor: nat)
    requires Pending(p, s, star, at, resume, cursor) && at < |p| && p[at] == STAR
    ensures Pending(p, s, Some(at), at + 1, cursor, cursor)
  {
    assert p[at + 1..at + 1] == s[cursor..cursor] == "";
    if star.Some? {
      var l := p[star.value + 1..at];
      assert p[star.value..] == [STAR] + l + p[at..];
      assert l <= s[resume..] && s[resume..][|l|..] == s[cursor..];
      LastStarSuffices(l, p[at..], s[resume..]);
    }
  }

  /** A literal byte moves both cursors. */
  lemma Advance(p: string, s: string, star: Option<nat>, at: nat, resume: nat, cursor: nat)
    requires Pending(p, s, star, at, resume, cursor) && at < |p| && cursor < |s| && p[at] != STAR && p[at] == s[cursor]
    ensures Pending(p, s, star, at + 1, resume, cursor + 1)
  {
    if star.None? {
      assert p[at..][1..] == p[at + 1..] && s[cursor..][1..] == s[cursor + 1..];
    } else {
      assert p[star.value + 1..at + 1] == p[star.value + 1..at] + [p[at]];
      assert s[resume..cursor + 1] == s[resume..cursor] + [s[cursor]];
    }
  }

  /** A mismatch after the literal rules out this start, so the last star swallows one more byte. */
  lemma Backtrack(p: string, s: string, star: nat, at: nat, resume: nat, cursor: nat)
    requires Pending(p, s, Some(star), at, resume, cursor) && cursor < |s|
    requires at < |p| ==> p[at] != STAR && p[at] != s[cursor]
    ensures Pending(p, s, Some(star), star + 1, resume + 1, resume + 1)
  {
    var l := p[star + 1..at];
    assert p[star..][1..] == l + p[at..];
    LiteralPrefix(l, p[at..], s[resume..]);
    assert s[resume..][|l|..] == s[cursor..];
    assert s[resume..][1..] == s[resume + 1..];
    assert p[star + 1..star + 1] == s[resume + 1..resume + 1] == "";
  }

  /** With the text used up, the pattern matches exactly when only stars remain of it. */
  lemma Exhausted(p: string, s: string, star: Option<nat>, at: nat, resume: nat)
    requires Pending(p, s, star, at, resume, |s|)
    ensures Matches(p, s) <==> forall i :: at <= i < |p| ==> p[i] == STAR
  {
    assert AllStars(p[at..]) <==> forall i :: at <= i < |p| ==> p[i] == STAR by {
      if AllStars(p[at..]) {
        forall i | at <= i < |p| ensures p[i] == STAR { assert p[i] == p[at..][i - at]; }
      }
    }
    if star.Some? {
      var l := p[star.value + 1..at];
      assert p[star.value..] == [STAR] + l + p[at..];
      assert s[resume..] == l;
      ExhaustedAfterStar(l, p[at..]);
    } else {
      assert s[|s|..] == "";
      EmptyIffAllStars(p[at..]);
    }
  }

  // ----- Glob::remainders_after -----

  /** Position `i` of `p` is live after `w` was consumed: the pattern before it matches `w`, or `w` ended
      inside the star standing at `i`. */
  ghost predicate Live(p: string, w: string, i: nat) {
    i <= |p| && (Matches(p[..i], w) || (i < |p| && p[i] == STAR && Matches(p[..i + 1], w)))
  }

  /** Matching read from the right end: a trailing star. */
  lemma {:induction false} TrailingStar(p: string, w: string, b: char)
    ensures Matches(p + [STAR], w + [b]) <==> Matches(p, w + [b]) || Matches(p + [STAR], w)
    decreases |p| + |w|
  {
    var ps, wb := p + [STAR], w + [b];
    if p == "" {
      assert ps[1..] == "" && ps == [STAR];
      OneStar(w);
      OneStar(wb);
      assert p + [STAR] == [STAR];
    } else {
      assert ps[1..] == p[1..] + [STAR];
      if p[0] == STAR {
        TrailingStar(p[1..], w, b);
        if w != "" {
          assert wb[1..] == w[1..] + [b];
          TrailingStar(p, w[1..], b);
        } else {
          assert wb[1..] == "" && w == "";
          EmptyIffAllStars(ps);
          EmptyIffAllStars(p);
          assert AllStars(ps) <==> AllStars(p) by {
            if AllStars(ps) { forall i | 0 <= i < |p| ensures p[i] == STAR { assert ps[i] == STAR; } }
          }
        }
      } else if w != "" {
        assert wb[1..] == w[1..] + [b];
        TrailingStar(p[1..], w[1..], b);
      } else {
        assert wb[1..] == "";
        EmptyIffAllStars(p[1..] + [STAR]);
        EmptyIffAllStars(p[1..]);
        var q := p[1..] + [STAR];
        assert AllStars(q) <==> AllStars(p[1..]) by {
          if AllStars(q) { forall i | 0 <= i < |p[1..]| ensures p[1..][i] == STAR { assert q[i] == STAR; } }
        }
      }
    }
  }

  /** `*` alone matches everything. */
  lemma {:induction false} OneStar(s: string)
    ensures Matches([STAR], s)
    decreases |s|
  {
    assert [STAR][1..] == "";
    if s != "" {
      OneStar(s[1..]);
    }
  }

  /** Matching read from the right end: a trailing literal. */
  lemma {:induction false} TrailingLiteral(p: string, c: char, w: string)
    requires c != STAR
    ensures Matches(p + [c], w) <==> w != "" && w[|w| - 1] == c && Matches(p, w[..|w| - 1])
    decreases |p| + |w|
  {
    var pc := p + [c];
    if p == "" {
      assert pc[1..] == "";
      if w != "" && w[1..] == "" {
        assert w[..|w| - 1] == "";
      } else if w != "" {
        assert |w[1..]| > 0;
        assert w[..|w| - 1] != "";
      }
    } else {
      assert pc[1..] == p[1..] + [c];
      if p[0] == STAR {
        TrailingLiteral(p[1..], c, w);
        if w != "" {
          TrailingLiteral(p, c, w[1..]);
          if |w| > 1 {
            assert w[1..][..|w| - 2] == w[..|w| - 1][1..];
          }
        }
      } else if w != "" {
        TrailingLiteral(p[1..], c, w[1..]);
        if |w| > 1 {
          assert w[1..][..|w| - 2] == w[..|w| - 1][1..];
          assert w[..|w| - 1][0] == w[0];
        } else {
          assert w[..|w| - 1] == "";
        }
      }
    }
  }

  /** Before any byte the live positions are those behind a leading run of stars. */
  lemma LiveAtStart(p: string, i: nat)
    requires i <= |p|
    ensures Live(p, "", i) <==> i == 0 || (p[i - 1] == STAR && Live(p, "", i - 1))
  {
    PrefixMatchesEmpty(p, i);
    if i < |p| { PrefixMatchesEmpty(p, i + 1); }
    if i > 0 { PrefixMatchesEmpty(p, i - 1); }
  }

  lemma PrefixMatchesEmpty(p: string, i: nat)
    requires i <= |p|
    ensures Matches(p[..i], "") <==> StarsBetween(p, 0, i)
  {
    EmptyIffAllStars(p[..i]);
    if AllStars(p[..i]) {
      forall k | 0 <= k < i ensures p[k] == STAR { assert p[k] == p[..i][k]; }
    }
  }

  /** The position `i` the inner loop of the simulation activates directly for byte `b`. */
  ghost predicate Direct(p: string, w: string, b: char, i: nat)
    requires i <= |p|
  {
    (i < |p| && p[i] == STAR && Live(p, w, i)) ||
    (0 < i && p[i - 1] != STAR && p[i - 1] == b && Live(p, w, i - 1))
  }

  /** The cells the inner loop has set in `next` once it has visited the positions below `done`. */
  ghost predicate Activated(p: string, reachable: seq<bool>, b: char, done: nat, i: nat)
    requires |reachable| == |p| + 1 && i <= |p| && done <= |p|
  {
    (i < done && p[i] == STAR && reachable[i]) ||
    (0 < i <= done && p[i - 1] != STAR && p[i - 1] == b && reachable[i - 1])
  }

  /** One byte of the simulation, with stars closed left to right, computes liveness exactly. */
  lemma LiveAfterByte(p: string, w: string, b: char, i: nat)
    requires i <= |p|
    ensures Live(p, w + [b], i) <==> Direct(p, w, b, i) || (0 < i && p[i - 1] == STAR && Live(p, w + [b], i - 1))
  {
    if i < |p| {
      assert p[..i + 1] == p[..i] + [p[i]];
      if p[i] == STAR {
        TrailingStar(p[..i], w, b);
        StarPrefixAbsorbs(p[..i], w);
      }
    }
    if i > 0 {
      assert p[..i] == p[..i - 1] + [p[i - 1]];
      if p[i - 1] == STAR {
        StarPrefixAbsorbs(p[..i - 1], w + [b]);
      } else {
        TrailingLiteral(p[..i - 1], p[i - 1], w + [b]);
        assert (w + [b])[..|w|] == w;
      }
    }
  }

  /** What a pattern matches it still matches with a star appended. */
  lemma StarPrefixAbsorbs(p: string, w: string)
    ensures Matches(p, w) ==> Matches(p + [STAR], w)
  {
    if Matches(p, w) {
      OneStar("");
      Concat(p, [STAR], w, "");
      assert w + "" == w;
    }
  }

  /** Matches compose. */
  lemma {:induction false} Concat(p: string, q: string, s: string, t: string)
    requires Matches(p, s) && Matches(q, t)
    ensures Matches(p + q, s + t)
    decreases |p| + |s|
  {
    if p == "" {
      assert p + q == q && s + t == t;
    } else {
      assert (p + q)[1..] == p[1..] + q;
      if s != "" { assert (s + t)[1..] == s[1..] + t; }
      if p[0] == STAR {
        if Matches(p[1..], s) { Concat(p[1..], q, s, t); } else { Concat(p, q, s[1..], t); }
      } else {
        Concat(p[1..], q, s[1..], t);
      }
    }
  }

  /** The recurrence one ascending pass establishes: a cell is set if it was, or if a star carries its left
      neighbour over. */
  ghost predicate Carried(p: string, before: seq<bool>, after: seq<bool>, i: nat)
    requires |before| == |after| == |p| + 1 && i <= |p|
  {
    after[i] <==> before[i] || (0 < i && p[i - 1] == STAR && after[i - 1])
  }

  /** One ascending pass over the array, as the source's `close_stars`, is a full closure: a cell ends up set
      exactly when some cell at or before it was set and only stars lie between. */
  method CloseStars(pattern: string, reachable: array<bool>)
    requires reachable.Length == |pattern| + 1
    modifies reachable
    ensures forall i :: 0 <= i <= |pattern| ==>
      (reachable[i] <==> exists j :: 0 <= j <= i && old(reachable[j]) && StarsBetween(pattern, j, i))
    ensures forall i :: 0 <= i <= |pattern| ==> Carried(pattern, old(reachable[..]), reachable[..], i)
  {
    ghost var before := reachable[..];
    for position := 0 to |pattern|
      invariant forall i :: 0 <= i <= position ==> Carried(pattern, before, reachable[..], i)
      invariant forall i :: position < i <= |pattern| ==> reachable[i] == before[i]
    {
      ghost var was := reachable[..];
      if reachable[position] && pattern[position] == STAR {
        reachable[position + 1] := true;
      }
      forall i | 0 <= i <= position + 1 ensures Carried(pattern, before, reachable[..], i) {
        if i <= position { assert Carried(pattern, before, was, i); }
      }
    }
    ClosureIsFull(pattern, before, reachable[..]);
  }

  ghost predicate StarsBetween(p: string, j: nat, i: nat)
    requires i <= |p|
  {
    forall k :: j <= k < i ==> p[k] == STAR
  }

  /** The neighbour-by-neighbour recurrence is the full closure over runs of stars. */
  lemma ClosureIsFull(p: string, before: seq<bool>, after: seq<bool>)
    requires |before| == |after| == |p| + 1
    requires forall i :: 0 <= i <= |p| ==> Carried(p, before, after, i)
    ensures forall i :: 0 <= i <= |p| ==>
      (after[i] <==> exists j :: 0 <= j <= i && before[j] && StarsBetween(p, j, i))
  {
    for n := 0 to |p| + 1
      invariant forall i :: 0 <= i < n ==>
        (after[i] <==> exists j :: 0 <= j <= i && before[j] && StarsBetween(p, j, i))
    {
      assert Carried(p, before, after, n);
      if after[n] {
        if before[n] {
          assert StarsBetween(p, n, n);
        } else {
          assert after[n - 1];
          var j :| 0 <= j <= n - 1 && before[j] && StarsBetween(p, j, n - 1);
          assert StarsBetween(p, j, n);
        }
      }
      if j :| 0 <= j <= n && before[j] && StarsBetween(p, j, n) {
        if j < n { assert StarsBetween(p, j, n - 1) && after[n - 1]; }
      }
    }
  }

  /** The residual patterns after `w`, in pattern order from position `i`. */
  ghost function Remainders(p: string, w: string, i: nat := 0): seq<string>
    requires i <= |p| + 1
    decreases |p| + 1 - i
  {
    if i > |p| then [] else (if Live(p, w, i) then [p[i..]] else []) + Remainders(p, w, i + 1)
  }

  lemma {:induction false} RemaindersAre(p: string, w: string, i: nat, r: string)
    requires i <= |p| + 1
    ensures r in Remainders(p, w, i) <==> exists k :: i <= k <= |p| && Live(p, w, k) && r == p[k..]
    decreases |p| + 1 - i
  {
    if i <= |p| {
      RemaindersAre(p, w, i + 1, r);
    }
  }

  /** Pattern suffixes that can still match after `prefix` has been consumed: a simulation over two boolean
      arrays, one cell per pattern position. */
  method RemaindersAfter(pattern: string, prefix: string) returns (rests: seq<string>)
    ensures rests == Remainders(pattern, prefix)
    ensures forall s :: Matches(pattern, prefix + s) <==> exists r :: r in rests && Matches(r, s)
  {
    var reachable := new bool[|pattern| + 1](_ => false);
    var next := new bool[|pattern| + 1](_ => false);
    reachable[0] := true;
    ghost var start := reachable[..];
    CloseStars(pattern, reachable);
    StartIsLive(pattern, start, reachable[..]);
    assert prefix[..0] == "";
    for n := 0 to |prefix|
      invariant reachable != next && fresh(reachable) && fresh(next)
      invariant reachable.Length == next.Length == |pattern| + 1
      invariant forall i :: 0 <= i <= |pattern| ==> (reachable[i] <==> Live(pattern, prefix[..n], i))
    {
      var byte := prefix[n];
      forall i | 0 <= i < next.Length { next[i] := false; }
      for position := 0 to |pattern|
        invariant forall i :: 0 <= i <= |pattern| ==> (reachable[i] <==> Live(pattern, prefix[..n], i))
        invariant forall i :: 0 <= i <= |pattern| ==>
          (next[i] <==> Activated(pattern, reachable[..], byte, position, i))
      {
        if reachable[position] {
          if pattern[position] == STAR {
            next[position] := true;
          } else if pattern[position] == byte {
            next[position + 1] := true;
          }
        }
      }
      ghost var direct := next[..];
      CloseStars(pattern, next);
      StepIsLive(pattern, prefix[..n], byte, reachable[..], direct, next[..]);
      assert prefix[..n + 1] == prefix[..n] + [byte];
      reachable, next := next, reachable;
    }
    assert prefix[..|prefix|] == prefix;
    rests := [];
    var position := |pattern| + 1;
    while position > 0
      invariant 0 <= position <= |pattern| + 1
      invariant rests == Remainders(pattern, prefix, position)
    {
      position := position - 1;
      if reachable[position] {
        rests := [pattern[position..]] + rests;
      }
    }
    forall s ensures Matches(pattern, prefix + s) <==> exists r :: r in rests && Matches(r, s) {
      ResidualsExact(pattern, prefix, s);
    }
  }

  lemma StartIsLive(p: string, before: seq<bool>, after: seq<bool>)
    requires |before| == |after| == |p| + 1
    requires forall i :: 0 <= i <= |p| ==> before[i] == (i == 0)
    requires forall i :: 0 <= i <= |p| ==> Carried(p, before, after, i)
    ensures forall i :: 0 <= i <= |p| ==> (after[i] <==> Live(p, "", i))
  {
    for n := 0 to |p| + 1
      invariant forall i :: 0 <= i < n ==> (after[i] <==> Live(p, "", i))
    {
      assert Carried(p, before, after, n);
      LiveAtStart(p, n);
    }
  }

  lemma StepIsLive(p: string, w: string, b: char, reachable: seq<bool>, direct: seq<bool>, next: seq<bool>)
    requires |reachable| == |direct| == |next| == |p| + 1
    requires forall i :: 0 <= i <= |p| ==> (reachable[i] <==> Live(p, w, i))
    requires forall i :: 0 <= i <= |p| ==> (direct[i] <==> Activated(p, reachable, b, |p|, i))
    requires forall i :: 0 <= i <= |p| ==> Carried(p, direct, next, i)
    ensures forall i :: 0 <= i <= |p| ==> (next[i] <==> Live(p, w + [b], i))
  {
    for n := 0 to |p| + 1
      invariant forall i :: 0 <= i < n ==> (next[i] <==> Live(p, w + [b], i))
    {
      assert Carried(p, direct, next, n);
      LiveAfterByte(p, w, b, n);
    }
  }

  // ----- What the residuals mean -----

  /** A live position carries on: what its suffix matches completes the whole pattern. */
  lemma LiveIsSound(p: string, w: string, i: nat, s: string)
    requires Live(p, w, i) && Matches(p[i..], s)
    ensures Matches(p, w + s)
  {
    if Matches(p[..i], w) {
      Concat(p[..i], p[i..], w, s);
      assert p[..i] + p[i..] == p;
    } else {
      assert p[..i + 1] == p[..i] + [STAR] && p[i..] == [STAR] + p[i + 1..];
      SoundInsideStar(p[..i], p[i + 1..], w, s);
      assert p[..i] + [STAR] + p[i + 1..] == p;
    }
  }

  /** Inside a star, the run goes on as far as the suffix needs it to. */
  lemma SoundInsideStar(front: string, rest: string, w: string, s: string)
    requires Matches(front + [STAR], w) && Matches([STAR] + rest, s)
    ensures Matches(front + [STAR] + rest, w + s)
  {
    assert ([STAR] + rest)[1..] == rest;
    var k: nat :| k <= |s| && Matches(rest, s[k..]) by { StarIsAnyRun([STAR] + rest, s); }
    assert Matches(front + [STAR], w + s[..k]) by { StarGrows(front, w, s[..k]); }
    Concat(front + [STAR], rest, w + s[..k], s[k..]);
    assert w + s[..k] + s[k..] == w + s;
  }

  lemma {:induction false} StarGrows(p: string, w: string, t: string)
    requires Matches(p + [STAR], w)
    ensures Matches(p + [STAR], w + t)
    decreases |t|
  {
    if t == "" {
      assert w + t == w;
    } else {
      var n := |t| - 1;
      StarGrows(p, w, t[..n]);
      TrailingStar(p, w + t[..n], t[n]);
      assert w + t[..n] + [t[n]] == w + t by { assert t[..n] + [t[n]] == t; }
    }
  }

  /** Every match of `w + s` passes through a live position after `w`. */
  lemma {:induction false} LiveIsComplete(p: string, w: string, s: string) returns (i: nat)
    requires Matches(p, w + s)
    ensures Live(p, w, i) && Matches(p[i..], s)
    decreases |p| + |w|
  {
    assert p[..0] == "" && p[0..] == p;
    if w == "" {
      assert w + s == s;
      return 0;
    }
    assert (w + s)[1..] == w[1..] + s;
    if p[0] == STAR {
      if Matches(p[1..], w + s) {
        var j := LiveIsComplete(p[1..], w, s);
        i := j + 1;
        assert p[1..][j..] == p[i..];
        LiveUnderStar(p, w, j);
      } else {
        i := LiveIsComplete(p, w[1..], s);
      }
    } else {
      var j := LiveIsComplete(p[1..], w[1..], s);
      i := j + 1;
      assert p[1..][j..] == p[i..];
      assert p[..i][1..] == p[1..][..j];
      if i < |p| { assert p[..i + 1][1..] == p[1..][..j + 1]; }
    }
  }

  lemma LiveUnderStar(p: string, w: string, j: nat)
    requires p != "" && p[0] == STAR && Live(p[1..], w, j)
    ensures Live(p, w, j + 1)
  {
    assert p[..j + 1][1..] == p[1..][..j];
    if j + 1 < |p| { assert p[..j + 2][1..] == p[1..][..j + 1]; }
  }

  /** The returned remainders are the pattern's residuals after the prefix. */
  lemma ResidualsExact(p: string, w: string, s: string)
    ensures Matches(p, w + s) <==> exists r :: r in Remainders(p, w) && Matches(r, s)
  {
    if Matches(p, w + s) {
      var i := LiveIsComplete(p, w, s);
      RemaindersAre(p, w, 0, p[i..]);
    }
    if r :| r in Remainders(p, w) && Matches(r, s) {
      RemaindersAre(p, w, 0, r);
      var k :| 0 <= k <= |p| && Live(p, w, k) && r == p[k..];
      LiveIsSound(p, w, k, s);
    }
  }

  /** A pattern read as text matches itself, so no pattern is unsatisfiable. */
  lemma {:induction false} MatchesItself(p: string)
    ensures Matches(p, p)
    decreases |p|
  {
    if p != "" {
      MatchesItself(p[1..]);
      if p[0] == STAR { StarSkips(p, p, 1) by { assert Matches(p, p[1..]); } }
    }
  }

  /** Whether some value beginning with `prefix` can match the pattern. */
  method MatchesPrefix(pattern: string, prefix: string) returns (possible: bool)
    ensures possible <==> exists s :: Matches(pattern, prefix + s)
    ensures possible <==> Remainders(pattern, prefix) != []
  {
    var rests := RemaindersAfter(pattern, prefix);
    possible := |rests| > 0;
    PrefixPossible(pattern, prefix);
  }

  lemma PrefixPossible(p: string, w: string)
    ensures Remainders(p, w) != [] <==> exists s :: Matches(p, w + s)
  {
    if Remainders(p, w) != [] {
      var r := Remainders(p, w)[0];
      MatchesItself(r);
      ResidualsExact(p, w, r);
      assert r in Remainders(p, w) && Matches(r, r);
    }
    if exists s :: Matches(p, w + s) {
      var s :| Matches(p, w + s);
      ResidualsExact(p, w, s);
      var r :| r in Remainders(p, w) && Matches(r, s);
    }
  }

  // ----- Slicing the pattern never splits a character -----

  /** Every remainder starts at a character boundary, so slicing the pattern there cannot panic. */
  lemma RemaindersRespectCharacters(p: string, w: string, i: nat)
    requires ValidUtf8(p) && ValidUtf8(w) && Live(p, w, i)
    ensures IsCharBoundary(p, i)
  {
    if 0 < i < |p| && Continuation(p[i]) {
      assert Matches(p[..i], w);
      var c := CharStart(p, i);
      LiteralSuffix(p[..c], p[c..i], w) by { assert p[..c] + p[c..i] == p[..i]; }
      assert w[|w| - (i - c)..] == p[c..i];
      TruncatedCharacter(w, p[c], i - c);
    }
  }

  /** So a pattern that can still match after a text can be completed by a text: one of its own remainders. */
  lemma TextCompletes(p: string, w: string) returns (s: string)
    requires ValidUtf8(p) && ValidUtf8(w) && Remainders(p, w) != []
    ensures ValidUtf8(s) && Matches(p, w + s)
  {
    s := Remainders(p, w)[0];
    RemaindersAre(p, w, 0, s);
    var i :| 0 <= i <= |p| && Live(p, w, i) && s == p[i..];
    RemaindersRespectCharacters(p, w, i);
    SuffixIsText(p, i);
    MatchesItself(s);
    LiveIsSound(p, w, i, s);
  }

  lemma {:induction false} SuffixIsText(p: string, i: nat)
    requires ValidUtf8(p) && i <= |p| && IsCharBoundary(p, i)
    ensures ValidUtf8(p[i..])
    decreases |p|
  {
    if i == 0 {
      assert p[i..] == p;
    } else {
      var n := LeadLength(p[0]);
      assert n <= i;
      SuffixIsText(p[n..], i - n);
      assert p[n..][i - n..] == p[i..];
    }
  }

  /** The lead byte of the character a continuation byte belongs to. */
  lemma {:induction false} CharStart(p: string, i: nat) returns (c: nat)
    requires ValidUtf8(p) && i < |p| && Continuation(p[i])
    ensures c < i < c + LeadLength(p[c])
    ensures forall k :: c < k <= i ==> Continuation(p[k])
    decreases |p|
  {
    var n := LeadLength(p[0]);
    if i < n {
      c := 0;
    } else {
      var d := CharStart(p[n..], i - n);
      c := d + n;
      assert p[c] == p[n..][d];
      forall k | c < k <= i ensures Continuation(p[k]) { assert p[k] == p[n..][k - n]; }
    }
  }

  lemma {:induction false} LiteralSuffix(p: string, l: string, w: string)
    requires StarFree(l) && Matches(p + l, w)
    ensures |l| <= |w| && w[|w| - |l|..] == l
    decreases |l|
  {
    if l != "" {
      var n := |l| - 1;
      assert p + l == p + l[..n] + [l[n]];
      TrailingLiteral(p + l[..n], l[n], w);
      LiteralSuffix(p, l[..n], w[..|w| - 1]);
      assert w[|w| - |l|..] == w[..|w| - 1][|w| - 1 - n..] + [w[|w| - 1]];
    }
  }

  /** Complete text never ends in a character that is missing bytes. */
  lemma {:induction false} TruncatedCharacter(w: string, lead: char, n: nat)
    requires ValidUtf8(w) && 0 < n < LeadLength(lead) && n <= |w|
    requires w[|w| - n] == lead
    requires forall k :: |w| - n < k < |w| ==> Continuation(w[k])
    ensures false
    decreases |w|
  {
    var m := LeadLength(w[0]);
    if |w| - n < m {
      assert false;
    } else {
      var t := w[m..];
      assert t[|t| - n] == lead;
      forall k | |t| - n < k < |t| ensures Continuation(t[k]) { assert t[k] == w[k + m]; }
      TruncatedCharacter(t, lead, n);
    }
  }
}
