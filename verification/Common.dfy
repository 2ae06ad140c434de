/** Shared vocabulary of the model.

    Text is a `string` holding one `char` per UTF-8 byte, because every scanning loop of the
    source (`as_bytes`, `bytes()`, `split_once`) works on bytes. */
module Common {

  datatype Option<+T> = None | Some(value: T)

  /** A 64-bit signed integer. */
  type i64 = x: int | -0x8000_0000_0000_0000 <= x < 0x8000_0000_0000_0000

  /** `c` is a UTF-8 continuation byte. */
  predicate Continuation(c: char) {
    0x80 <= c as int < 0xC0
  }

  /** The encoded length a UTF-8 lead byte announces; 0 when `c` cannot lead. */
  function LeadLength(c: char): nat {
    var b := c as int;
    if b < 0x80 then 1 else if 0xC0 <= b < 0xE0 then 2 else if 0xE0 <= b < 0xF0 then 3 else if 0xF0 <= b < 0xF8 then 4 else 0
  }

  /** `s` is a run of complete UTF-8 encodings: each lead byte is followed by the continuation
      bytes it announces. (Overlong forms and surrogates are not distinguished.) */
  predicate ValidUtf8(s: string)
    decreases |s|
  {
    s == "" ||
    (var n := LeadLength(s[0]);
     0 < n <= |s| && (forall i :: 1 <= i < n ==> Continuation(s[i])) && ValidUtf8(s[n..]))
  }

  lemma {:induction false} AsciiIsText(s: string)
    requires forall i :: 0 <= i < |s| ==> s[i] < '~'
    ensures ValidUtf8(s)
    decreases |s|
  {
    if s != "" { AsciiIsText(s[1..]); }
  }

  lemma TextAppend(s: string, t: string)
    requires ValidUtf8(s) && ValidUtf8(t)
    ensures ValidUtf8(s + t)
  {
    var cs := TextCharacters(s);
    var text := x => ValidUtf8(x);
    forall c, rest | Character(c) && text(rest) ensures text(c + rest) {}
    PrependAll(cs, t, text);
  }

  function Flat(cs: seq<string>): string { if cs == [] then "" else cs[0] + Flat(cs[1..]) }

  lemma {:induction false} TextCharacters(s: string) returns (cs: seq<string>)
    requires ValidUtf8(s)
    ensures Flat(cs) == s && forall i :: 0 <= i < |cs| ==> Character(cs[i])
    decreases |s|
  {
    if s == "" {
      cs := [];
    } else {
      var c, rest := FirstCharacter(s);
      var others := TextCharacters(rest);
      cs := [c] + others;
      assert cs[1..] == others;
    }
  }

  /** What survives one more character in front survives any number of them. */
  lemma {:induction false} PrependAll(cs: seq<string>, t: string, holds: string -> bool)
    requires forall c, rest {:trigger holds(c + rest)} :: Character(c) && holds(rest) ==> holds(c + rest)
    requires holds(t) && forall i :: 0 <= i < |cs| ==> Character(cs[i])
    ensures holds(Flat(cs) + t)
    decreases |cs|
  {
    if cs == [] {
      assert Flat(cs) + t == t;
    } else {
      PrependAll(cs[1..], t, holds);
      assert holds(cs[0] + (Flat(cs[1..]) + t));
      assert cs[0] + (Flat(cs[1..]) + t) == Flat(cs) + t;
    }
  }

  /** One lead byte and the continuation bytes it announces. */
  ghost predicate Character(c: string) {
    c != "" && |c| == LeadLength(c[0]) && forall i :: 1 <= i < |c| ==> Continuation(c[i])
  }

  lemma FirstCharacter(s: string) returns (c: string, rest: string)
    requires ValidUtf8(s) && s != ""
    ensures s == c + rest && Character(c) && ValidUtf8(rest)
  {
    var n := LeadLength(s[0]);
    c, rest := s[..n], s[n..];
  }

  /** What a Rust `String` holds. */
  type Text = s: string | ValidUtf8(s)

  /** The positions at which a Rust `str` may be sliced without a panic. */
  predicate IsCharBoundary(s: string, i: nat) {
    i == 0 || i == |s| || (i < |s| && !Continuation(s[i]))
  }

  // ----- Splitting and joining on one separator byte -----

  /** The pieces between the separators; always at least one. */
  function Split(s: string, c: char): (pieces: seq<string>)
    ensures |pieces| >= 1
  {
    if s == "" then [""]
    else
      var rest := Split(s[1..], c);
      if s[0] == c then [""] + rest else [[s[0]] + rest[0]] + rest[1..]
  }

  function Join(pieces: seq<string>, c: char): string
    requires |pieces| >= 1
  {
    if |pieces| == 1 then pieces[0] else pieces[0] + [c] + Join(pieces[1..], c)
  }

  ghost predicate FreeOf(pieces: seq<string>, c: char) {
    forall i :: 0 <= i < |pieces| ==> c !in pieces[i]
  }

  lemma {:induction false} JoinOfSplit(s: string, c: char)
    ensures Join(Split(s, c), c) == s && FreeOf(Split(s, c), c)
    decreases |s|
  {
    if s != "" {
      JoinOfSplit(s[1..], c);
      assert s == [s[0]] + s[1..];
    }
  }

  lemma {:induction false} SplitOfJoin(pieces: seq<string>, c: char)
    requires |pieces| >= 1 && FreeOf(pieces, c)
    ensures Split(Join(pieces, c), c) == pieces
    decreases |pieces|
  {
    if |pieces| == 1 {
      SplitPiece(pieces[0], "", c, [""]);
      assert pieces[0] + "" == pieces[0] && pieces == [pieces[0] + ""] + [""][1..];
    } else {
      SplitOfJoin(pieces[1..], c);
      var tail := [c] + Join(pieces[1..], c);
      assert tail[1..] == Join(pieces[1..], c);
      SplitPiece(pieces[0], tail, c, [""] + pieces[1..]);
      assert pieces[0] + tail == Join(pieces, c);
      assert ([""] + pieces[1..])[1..] == pieces[1..];
      assert pieces[0] + "" == pieces[0] && pieces == [pieces[0]] + pieces[1..];
    }
  }

  lemma {:induction false} SplitPiece(piece: string, tail: string, c: char, pieces: seq<string>)
    requires c !in piece && Split(tail, c) == pieces
    ensures Split(piece + tail, c) == [piece + pieces[0]] + pieces[1..]
    decreases |piece|
  {
    if piece == "" {
      assert piece + tail == tail && piece + pieces[0] == pieces[0];
    } else {
      SplitPiece(piece[1..], tail, c, pieces);
      assert (piece + tail)[1..] == piece[1..] + tail;
      assert [piece[0]] + (piece[1..] + pieces[0]) == piece + pieces[0];
      assert ([piece[1..] + pieces[0]] + pieces[1..])[1..] == pieces[1..];
    }
  }

  lemma {:induction false} JoinAppend(a: seq<string>, b: seq<string>, c: char)
    requires |a| >= 1 && |b| >= 1
    ensures Join(a + b, c) == Join(a, c) + [c] + Join(b, c)
    decreases |a|
  {
    if |a| == 1 {
      assert (a + b)[1..] == b;
    } else {
      JoinAppend(a[1..], b, c);
      assert (a + b)[1..] == a[1..] + b;
      assert a[0] + [c] + (Join(a[1..], c) + [c] + Join(b, c)) == a[0] + [c] + Join(a[1..], c) + [c] + Join(b, c);
    }
  }

  /** The text before and after the first `c`. */
  function SplitOnce(s: string, c: char): (r: Option<(string, string)>)
    ensures r.None? <==> c !in s
    ensures r.Some? ==> c !in r.value.0 && s == r.value.0 + [c] + r.value.1
  {
    if s == "" then None
    else if s[0] == c then Some(("", s[1..]))
    else
      match SplitOnce(s[1..], c)
      case None => None
      case Some(parts) => Some(([s[0]] + parts.0, parts.1))
  }

  lemma {:induction false} SplitOnceAt(a: string, c: char, b: string)
    requires c !in a
    ensures SplitOnce(a + [c] + b, c) == Some((a, b))
    decreases |a|
  {
    var s := a + [c] + b;
    if a == "" {
      assert s[0] == c && s[1..] == b;
    } else {
      assert s[1..] == a[1..] + [c] + b && s[0] == a[0];
      SplitOnceAt(a[1..], c, b);
      assert [a[0]] + a[1..] == a;
    }
  }

  /** The text before and after the last `c`. */
  function RSplitOnce(s: string, c: char): (r: Option<(string, string)>)
    ensures r.None? <==> c !in s
    ensures r.Some? ==> c !in r.value.1 && s == r.value.0 + [c] + r.value.1
  {
    if s == "" then None
    else
      var last := |s| - 1;
      assert s == s[..last] + [s[last]];
      if s[last] == c then Some((s[..last], ""))
      else
        match RSplitOnce(s[..last], c)
        case None => None
        case Some(parts) => Some((parts.0, parts.1 + [s[last]]))
  }

  lemma {:induction false} RSplitOnceAt(a: string, c: char, b: string)
    requires c !in b
    ensures RSplitOnce(a + [c] + b, c) == Some((a, b))
    decreases |b|
  {
    var s := a + [c] + b;
    if b == "" {
      assert s[|s| - 1] == c && s[..|s| - 1] == a;
    } else {
      var last := |b| - 1;
      RSplitOnceAt(a, c, b[..last]);
      assert s[..|s| - 1] == a + [c] + b[..last] && s[|s| - 1] == b[last];
      assert b[..last] + [b[last]] == b;
    }
  }
}
