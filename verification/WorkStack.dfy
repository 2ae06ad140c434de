/** When a work stack without a visited set runs empty, over any graph of texts
    (crates/peryx-ecosystem-oci/src/mirror.rs). */
module WorkStack {

  /** What popping a text pushes. */
  type Graph = string -> seq<string>

  /** The stack after one turn. */
  function Turned(next: Graph, pending: seq<string>): seq<string>
    requires pending != []
  {
    pending[..|pending| - 1] + next(pending[|pending| - 1])
  }

  /** The stack runs empty after exactly `n` turns. */
  predicate EndsIn(next: Graph, pending: seq<string>, n: nat)
    decreases n
  {
    if n == 0 then pending == [] else pending != [] && EndsIn(next, Turned(next, pending), n - 1)
  }

  ghost predicate Ends(next: Graph, pending: seq<string>) { exists n :: EndsIn(next, pending, n) }

  lemma {:induction false} EndsOnce(next: Graph, pending: seq<string>, m: nat, n: nat)
    requires EndsIn(next, pending, m) && EndsIn(next, pending, n)
    ensures m == n
    decreases m
  {
    if m > 0 && n > 0 { EndsOnce(next, Turned(next, pending), m - 1, n - 1); }
  }

  ghost function Turns(next: Graph, pending: seq<string>): nat
    requires Ends(next, pending)
  {
    var n :| EndsIn(next, pending, n); n
  }

  /** Every turn brings a stack that ends one turn closer to its end. */
  lemma TurnsShrink(next: Graph, pending: seq<string>)
    requires pending != [] && Ends(next, pending)
    ensures Ends(next, Turned(next, pending)) && Turns(next, Turned(next, pending)) < Turns(next, pending)
  {
    var n := Turns(next, pending);
    assert EndsIn(next, Turned(next, pending), n - 1);
    EndsOnce(next, Turned(next, pending), n - 1, Turns(next, Turned(next, pending)));
  }

  /** The part on top is worked off before the part below is looked at. */
  lemma {:induction false} EndsAppend(next: Graph, p: seq<string>, m: nat, q: seq<string>, n: nat)
    requires EndsIn(next, p, m) && EndsIn(next, q, n)
    ensures EndsIn(next, p + q, m + n)
    decreases n
  {
    if n == 0 {
      assert p + q == p;
    } else {
      EndsAppend(next, p, m, Turned(next, q), n - 1);
      assert Turned(next, p + q) == p + Turned(next, q);
    }
  }

  /** A stack ends if each of its entries would end on its own. */
  lemma {:induction false} EachEnds(next: Graph, pending: seq<string>)
    requires forall b :: b in pending ==> Ends(next, [b])
    ensures Ends(next, pending)
    decreases |pending|
  {
    if pending == [] {
      assert EndsIn(next, pending, 0);
    } else {
      var last := |pending| - 1;
      EachEnds(next, pending[..last]);
      var m, n := Turns(next, pending[..last]), Turns(next, [pending[last]]);
      EndsAppend(next, pending[..last], m, [pending[last]], n);
      assert pending == pending[..last] + [pending[last]];
      assert EndsIn(next, pending, m + n);
    }
  }

  lemma BelowEnds(next: Graph, b: string)
    requires Ends(next, next(b))
    ensures Ends(next, [b])
  {
    assert Turned(next, [b]) == next(b);
    assert EndsIn(next, [b], Turns(next, next(b)) + 1);
  }

  /** Texts that each push another one of their kind. */
  ghost predicate Trap(next: Graph, trap: iset<string>) {
    forall b {:trigger PushesInto(next, b, trap)} :: b in trap ==> PushesInto(next, b, trap)
  }

  ghost predicate PushesInto(next: Graph, b: string, trap: iset<string>) { exists x :: x in next(b) && x in trap }

  ghost predicate Holds(pending: seq<string>, trap: iset<string>) { exists b :: b in pending && b in trap }

  /** A stack that holds one of them still does after any number of turns. */
  lemma TrapStays(next: Graph, pending: seq<string>, trap: iset<string>)
    requires Trap(next, trap) && Holds(pending, trap)
    ensures pending != [] && Holds(Turned(next, pending), trap)
  {
    var last := |pending| - 1;
    var b :| b in pending && b in trap;
    if b == pending[last] {
      assert PushesInto(next, b, trap);
      var x :| x in next(b) && x in trap;
      assert x in Turned(next, pending);
    } else {
      assert b in pending[..last];
      assert b in Turned(next, pending);
    }
  }

  lemma {:induction false} TrapNeverEnds(next: Graph, pending: seq<string>, trap: iset<string>, n: nat)
    requires Trap(next, trap) && Holds(pending, trap)
    ensures !EndsIn(next, pending, n)
    decreases n
  {
    TrapStays(next, pending, trap);
    if n > 0 { TrapNeverEnds(next, Turned(next, pending), trap, n - 1); }
  }

  ghost predicate Trapped(next: Graph, pending: seq<string>) { exists trap :: Trap(next, trap) && Holds(pending, trap) }

  /** The work stack runs empty exactly when it holds nothing out of which one can be handed on forever. */
  lemma EndsIffNotTrapped(next: Graph, pending: seq<string>)
    ensures Ends(next, pending) <==> !Trapped(next, pending)
  {
    if Trapped(next, pending) {
      var trap :| Trap(next, trap) && Holds(pending, trap);
      forall n: nat ensures !EndsIn(next, pending, n) { TrapNeverEnds(next, pending, trap, n); }
    } else {
      var endless := iset b | !Ends(next, [b]);
      EndlessIsATrap(next, endless);
      assert !Holds(pending, endless);
      EachEnds(next, pending);
    }
  }

  lemma EndlessIsATrap(next: Graph, endless: iset<string>)
    requires forall b :: b in endless <==> !Ends(next, [b])
    ensures Trap(next, endless)
  {
    forall b | b in endless ensures PushesInto(next, b, endless) {
      if forall x :: x in next(b) ==> Ends(next, [x]) {
        EachEnds(next, next(b));
        BelowEnds(next, b);
        assert false;
      }
    }
  }
}
