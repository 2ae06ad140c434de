/** Byte order on text, and sets of text enumerated in that order, as an ordered table or tree does. */
module ByteOrder {

  /** Byte order. */
  predicate Before(a: string, b: string)
    decreases |a|
  {
    b != "" && (a == "" || a[0] < b[0] || (a[0] == b[0] && Before(a[1..], b[1..])))
  }

  lemma {:induction false} BeforeTotal(a: string, b: string)
    ensures a == b || Before(a, b) || Before(b, a)
    ensures !(Before(a, b) && Before(b, a)) && !Before(a, a)
    decreases |a|
  {
    if a != "" { BeforeTotal(a[1..], a[1..]); }
    if a != "" && b != "" {
      BeforeTotal(a[1..], b[1..]);
      assert a == [a[0]] + a[1..] && b == [b[0]] + b[1..];
    }
  }

  lemma {:induction false} BeforeTransitive(a: string, b: string, c: string)
    requires Before(a, b) && Before(b, c)
    ensures Before(a, c)
    decreases |a|
  {
    if a != "" && a[0] == b[0] == c[0] { BeforeTransitive(a[1..], b[1..], c[1..]); }
  }

  lemma {:induction false} BeforeAfterPrefix(p: string, a: string, b: string)
    ensures Before(p + a, p + b) <==> Before(a, b)
    decreases |p|
  {
    if p == "" {
      assert p + a == a && p + b == b;
    } else {
      assert (p + a)[1..] == p[1..] + a && (p + b)[1..] == p[1..] + b;
      BeforeAfterPrefix(p[1..], a, b);
    }
  }

  ghost predicate Ascending(keys: seq<string>) {
    forall i, j :: 0 <= i < j < |keys| ==> Before(keys[i], keys[j])
  }

  /** The members of a set in key order, as an ordered table yields them. */
  method InOrder(s: set<string>) returns (keys: seq<string>)
    ensures Ascending(keys)
    ensures forall x :: x in keys <==> x in s
    ensures |keys| == |s|
  {
    keys := [];
    var left := s;
    while left != {}
      invariant left <= s && Ascending(keys)
      invariant forall x :: x in keys <==> x in s - left
      invariant |keys| == |s| - |left|
      decreases |left|
    {
      var x :| x in left;
      keys := Insert(keys, x);
      left := left - {x};
    }
  }

  method Insert(keys: seq<string>, x: string) returns (r: seq<string>)
    requires Ascending(keys) && x !in keys
    ensures Ascending(r) && |r| == |keys| + 1
    ensures forall y :: y in r <==> y == x || y in keys
  {
    var i := 0;
    while i < |keys| && Before(keys[i], x)
      invariant 0 <= i <= |keys|
      invariant forall j :: 0 <= j < i ==> Before(keys[j], x)
    {
      i := i + 1;
    }
    r := keys[..i] + [x] + keys[i..];
    InsertKeepsOrder(keys, x, i);
  }

  lemma InsertKeepsOrder(keys: seq<string>, x: string, i: nat)
    requires Ascending(keys) && x !in keys && i <= |keys|
    requires forall j :: 0 <= j < i ==> Before(keys[j], x)
    requires i < |keys| ==> !Before(keys[i], x)
    ensures Ascending(keys[..i] + [x] + keys[i..])
    ensures forall y :: y in keys[..i] + [x] + keys[i..] <==> y == x || y in keys
  {
    forall j | i <= j < |keys| ensures Before(x, keys[j]) {
      BeforeTotal(keys[i], x);
      if i < j { BeforeTransitive(x, keys[i], keys[j]); }
    }
    assert keys == keys[..i] + keys[i..];
  }
}
