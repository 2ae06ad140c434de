/** The registry of in-flight downloads as a concurrent protocol: register is one atomic step, while finish and drop are
    two (leave the registry, then publish the result) that other actors can come between
    (crates/peryx-driver/src/download.rs). */
module Download {
  import opened Common

  datatype Result = Committed | Broken(reason: string)

  const ABANDONED := Broken("blob transfer abandoned")

  /** What every tailing client watches. */
  datatype Progress = Progress(flushed: nat, done: Option<Result>)

  /** Where a producer stands: registered, gone from the registry with its result still unpublished, or exited. */
  datatype Phase = Active | Leaving(result: Result) | Exited
  datatype Producer = Producer(digest: string, phase: Phase)

  /** Producer `p` owns channel `p`; the registry maps a digest to the channel of its transfer. */
  datatype State = State(entries: map<string, nat>, channels: seq<Progress>, producers: seq<Producer>)

  const IDLE := State(map[], [], [])

  datatype Step =
    | Register(digest: string)
    | Flush(producer: nat, flushed: nat)
    | Leave(producer: nat, result: Result)
    | Publish(producer: nat)

  /** The steps a producer can take: its guard is consumed by finish or drop, so it leaves once and then publishes. */
  predicate Enabled(s: State, step: Step)
    requires |s.channels| == |s.producers|
  {
    match step
    case Register(_) => true
    case Flush(p, _) => p < |s.producers| && s.producers[p].phase == Active
    case Leave(p, _) => p < |s.producers| && s.producers[p].phase == Active
    case Publish(p) => p < |s.producers| && s.producers[p].phase.Leaving?
  }

  /** Only the entry of this very transfer goes. */
  function Without(entries: map<string, nat>, digest: string, p: nat): map<string, nat> {
    if digest in entries && entries[digest] == p then entries - {digest} else entries
  }

  function Apply(s: State, step: Step): State
    requires |s.channels| == |s.producers| && Enabled(s, step)
  {
    match step
    case Register(digest) =>
      if digest in s.entries then s
      else State(s.entries[digest := |s.channels|], s.channels + [Progress(0, None)], s.producers + [Producer(digest, Active)])
    case Flush(p, flushed) => s.(channels := s.channels[p := s.channels[p].(flushed := flushed)])
    case Leave(p, result) =>
      s.(entries := Without(s.entries, s.producers[p].digest, p), producers := s.producers[p := s.producers[p].(phase := Leaving(result))])
    case Publish(p) =>
      s.(channels := s.channels[p := s.channels[p].(done := Some(s.producers[p].phase.result))],
         producers := s.producers[p := s.producers[p].(phase := Exited)])
  }

  /** The shared registry and the channels behind it; each method is one atomic step. */
  class Registry {
    var entries: map<string, nat>
    var channels: seq<Progress>
    var producers: seq<Producer>

    function View(): State
      reads this
    {
      State(entries, channels, producers)
    }

    constructor ()
      ensures View() == IDLE
    {
      entries, channels, producers := map[], [], [];
    }

    /** Returns the channel to watch, and whether the caller became its producer. */
    method RegisterDownload(digest: string) returns (channel: nat, isProducer: bool)
      requires Inv(View())
      modifies this
      ensures View() == Apply(old(View()), Register(digest)) && Inv(View())
      ensures isProducer == (digest !in old(entries)) && digest in entries && entries[digest] == channel
    {
      StepKeepsInv(View(), Register(digest));
      if digest in entries { return entries[digest], false; }
      channel, isProducer := |channels|, true;
      entries := entries[digest := channel];
      channels := channels + [Progress(0, None)];
      producers := producers + [Producer(digest, Active)];
    }

    method PublishFlushed(p: nat, flushed: nat)
      requires Inv(View()) && Enabled(View(), Flush(p, flushed))
      modifies this`channels
      ensures View() == Apply(old(View()), Flush(p, flushed)) && Inv(View())
    {
      StepKeepsInv(View(), Flush(p, flushed));
      channels := channels[p := channels[p].(flushed := flushed)];
    }

    /** The first half of finish and drop. */
    method LeaveRegistry(p: nat, result: Result)
      requires Inv(View()) && Enabled(View(), Leave(p, result))
      modifies this`entries, this`producers
      ensures View() == Apply(old(View()), Leave(p, result)) && Inv(View())
    {
      StepKeepsInv(View(), Leave(p, result));
      var digest := producers[p].digest;
      if digest in entries && entries[digest] == p { entries := entries - {digest}; }
      producers := producers[p := producers[p].(phase := Leaving(result))];
    }

    /** The second half: wake every watcher with the result. */
    method PublishResult(p: nat)
      requires Inv(View()) && Enabled(View(), Publish(p))
      modifies this`channels, this`producers
      ensures View() == Apply(old(View()), Publish(p)) && Inv(View())
    {
      StepKeepsInv(View(), Publish(p));
      channels := channels[p := channels[p].(done := Some(producers[p].phase.result))];
      producers := producers[p := producers[p].(phase := Exited)];
    }

    /** A producer dropped without finishing, with nobody in between: gone from the registry, and its watchers told. */
    method Abandon(p: nat)
      requires Inv(View()) && Enabled(View(), Leave(p, ABANDONED))
      modifies this
      ensures Inv(View()) && p < |producers| && producers[p].phase == Exited && channels[p].done == Some(ABANDONED)
      ensures entries == Without(old(entries), old(producers)[p].digest, p)
    {
      LeaveRegistry(p, ABANDONED);
      PublishResult(p);
    }
  }

  // ----- What every interleaving keeps -----

  /** The registry holds exactly the active producers, each under its digest, and a channel is done exactly when its
      producer has exited. */
  ghost predicate Inv(s: State) {
    && |s.channels| == |s.producers|
    && (forall d :: d in s.entries ==> s.entries[d] < |s.producers| && s.producers[s.entries[d]] == Producer(d, Active))
    && (forall p :: 0 <= p < |s.producers| && s.producers[p].phase == Active ==>
          s.producers[p].digest in s.entries && s.entries[s.producers[p].digest] == p)
    && (forall p :: 0 <= p < |s.producers| ==> (s.producers[p].phase == Exited <==> s.channels[p].done.Some?))
  }

  lemma StepKeepsInv(s: State, step: Step)
    requires Inv(s) && Enabled(s, step)
    ensures Inv(Apply(s, step))
  {
  }

  /** A run in which every step was enabled when it was taken. */
  ghost predicate IsRun(steps: seq<Step>, states: seq<State>) {
    && |states| == |steps| + 1 && states[0] == IDLE
    && forall i :: 0 <= i < |steps| ==> Follows(states[i], steps[i], states[i + 1])
  }

  ghost predicate Follows(s: State, step: Step, s': State) {
    |s.channels| == |s.producers| && Enabled(s, step) && s' == Apply(s, step)
  }

  lemma {:induction false} RunKeepsInv(steps: seq<Step>, states: seq<State>, n: nat)
    requires IsRun(steps, states) && n < |states|
    ensures Inv(states[n])
    decreases n
  {
    if n > 0 {
      RunKeepsInv(steps, states, n - 1);
      assert Follows(states[n - 1], steps[n - 1], states[n]);
      StepKeepsInv(states[n - 1], steps[n - 1]);
    }
  }

  /** In every reachable state a digest has at most one active producer, no transfer is registered twice, and what a
      newcomer attaches to has not yet published its result. */
  lemma OneTransferPerDigest(steps: seq<Step>, states: seq<State>, n: nat)
    requires IsRun(steps, states) && n < |states|
    ensures var s := states[n];
      && (forall p, q :: 0 <= p < q < |s.producers| && s.producers[p].phase == s.producers[q].phase == Active ==>
            s.producers[p].digest != s.producers[q].digest)
      && (forall d, e :: d in s.entries && e in s.entries && s.entries[d] == s.entries[e] ==> d == e)
      && (forall d :: d in s.entries ==> s.entries[d] < |s.channels| && s.channels[s.entries[d]].done.None?)
  {
    RunKeepsInv(steps, states, n);
  }

  /** Results are write-once: a channel whose result is published never changes again, flushes included. */
  lemma {:induction false} ResultsAreFinal(steps: seq<Step>, states: seq<State>, m: nat, n: nat, p: nat)
    requires IsRun(steps, states) && m <= n < |states|
    requires p < |states[m].channels| && states[m].channels[p].done.Some?
    ensures p < |states[n].channels| && states[n].channels[p] == states[m].channels[p]
    decreases n
  {
    RunKeepsInv(steps, states, m);
    if m < n {
      ResultsAreFinal(steps, states, m, n - 1, p);
      RunKeepsInv(steps, states, n - 1);
      assert Follows(states[n - 1], steps[n - 1], states[n]);
    }
  }

  // ----- What the watchers of a transfer see -----

  /** What the steps so far say of producer `p`: active until it leaves, then holding the result it left with until it
      publishes it. */
  lemma {:induction false} PhaseTells(steps: seq<Step>, states: seq<State>, n: nat, p: nat)
    requires IsRun(steps, states) && n < |states| && p < |states[n].producers| == |states[n].channels|
    ensures match states[n].producers[p].phase
      case Active => forall k :: 0 <= k < n ==> !Exits(steps[k], p)
      case Leaving(r) => LeftWith(steps, n, p, r) && forall k :: 0 <= k < n ==> steps[k] != Publish(p)
      case Exited => exists r :: PublishedWith(steps, n, p, r) && states[n].channels[p].done == Some(r)
    decreases n
  {
    RunKeepsInv(steps, states, n - 1);
    assert Follows(states[n - 1], steps[n - 1], states[n]);
    var before := states[n - 1];
    if p < |before.producers| {
      PhaseTells(steps, states, n - 1, p);
      if before.producers[p].phase.Leaving? {
        var r := before.producers[p].phase.result;
        var l :| 0 <= l < n - 1 && steps[l] == Leave(p, r);
        if steps[n - 1] == Publish(p) { assert PublishedWith(steps, n, p, r); }
      } else if before.producers[p].phase.Active? {
        if steps[n - 1].Leave? && steps[n - 1].producer == p { assert steps[n - 1] == Leave(p, steps[n - 1].result); }
      } else {
        var r :| PublishedWith(steps, n - 1, p, r) && before.channels[p].done == Some(r);
        assert PublishedWith(steps, n, p, r);
      }
    } else {
      NotYetStarted(steps, states, n - 1, p);
    }
  }

  /** The step takes producer `p` out. */
  ghost predicate Exits(step: Step, p: nat) { (step.Leave? && step.producer == p) || step == Publish(p) }

  ghost predicate LeftWith(steps: seq<Step>, n: nat, p: nat, r: Result)
    requires n <= |steps|
  {
    exists l :: 0 <= l < n && steps[l] == Leave(p, r)
  }

  /** The producer left with this result and then published it. */
  ghost predicate PublishedWith(steps: seq<Step>, n: nat, p: nat, r: Result)
    requires n <= |steps|
  {
    exists l, m :: 0 <= l < m < n && steps[l] == Leave(p, r) && steps[m] == Publish(p)
  }

  /** A producer takes no step before it is registered. */
  lemma {:induction false} NotYetStarted(steps: seq<Step>, states: seq<State>, n: nat, p: nat)
    requires IsRun(steps, states) && n < |states| && p >= |states[n].producers|
    ensures forall k :: 0 <= k < n ==> !Exits(steps[k], p) && !(steps[k].Flush? && steps[k].producer == p)
    decreases n
  {
    if n > 0 {
      assert Follows(states[n - 1], steps[n - 1], states[n]);
      NotYetStarted(steps, states, n - 1, p);
    }
  }

  /** Watchers see the outcome the producer left with, and no other: a channel is done with a result exactly when its
      producer took its entry out of the registry with that result and later published. */
  lemma DoneIff(steps: seq<Step>, states: seq<State>, n: nat, p: nat, r: Result)
    requires IsRun(steps, states) && n < |states|
    ensures p < |states[n].channels| && states[n].channels[p].done == Some(r) <==> PublishedWith(steps, n, p, r)
  {
    RunKeepsInv(steps, states, n);
    if p < |states[n].channels| { PhaseTells(steps, states, n, p); }
    if l, m :| 0 <= l < m < n && steps[l] == Leave(p, r) && steps[m] == Publish(p) {
      LeftStays(steps, states, l, m, p, r);
      assert Follows(states[m], steps[m], states[m + 1]);
      ResultsAreFinal(steps, states, m + 1, n, p);
    }
  }

  /** From its leave on, a producer holds that result until it has exited. */
  lemma {:induction false} LeftStays(steps: seq<Step>, states: seq<State>, l: nat, m: nat, p: nat, r: Result)
    requires IsRun(steps, states) && l < m < |states| && steps[l] == Leave(p, r)
    ensures p < |states[m].producers| && states[m].producers[p].phase in {Leaving(r), Exited}
    decreases m
  {
    RunKeepsInv(steps, states, m - 1);
    assert Follows(states[m - 1], steps[m - 1], states[m]);
    if l + 1 < m { LeftStays(steps, states, l, m - 1, p, r); }
  }

  /** The value of the producer's last flush among the first `n` steps. */
  ghost function LastFlush(steps: seq<Step>, n: nat, p: nat): nat
    requires n <= |steps|
  {
    if n == 0 then 0
    else if steps[n - 1].Flush? && steps[n - 1].producer == p then steps[n - 1].flushed else LastFlush(steps, n - 1, p)
  }

  /** ... and the boundary it flushed last. */
  lemma {:induction false} FlushedIsLast(steps: seq<Step>, states: seq<State>, n: nat, p: nat)
    requires IsRun(steps, states) && n < |states| && p < |states[n].channels|
    ensures states[n].channels[p].flushed == LastFlush(steps, n, p)
    decreases n
  {
    RunKeepsInv(steps, states, n - 1);
    assert Follows(states[n - 1], steps[n - 1], states[n]);
    if p < |states[n - 1].channels| {
      FlushedIsLast(steps, states, n - 1, p);
    } else {
      NotYetStarted(steps, states, n - 1, p);
      NoFlush(steps, n - 1, p);
    }
  }

  lemma {:induction false} NoFlush(steps: seq<Step>, n: nat, p: nat)
    requires n <= |steps| && forall k :: 0 <= k < n ==> !(steps[k].Flush? && steps[k].producer == p)
    ensures LastFlush(steps, n, p) == 0
    decreases n
  {
    if n > 0 { NoFlush(steps, n - 1, p); }
  }

  /** A producer only ever takes its own entry out of the registry, and only a leaving one does. */
  lemma OnlyOwnEntryLeaves(steps: seq<Step>, states: seq<State>, n: nat, d: string)
    requires IsRun(steps, states) && n < |steps| && d in states[n].entries
    ensures d in states[n + 1].entries ==> states[n + 1].entries[d] == states[n].entries[d]
    ensures d !in states[n + 1].entries ==> steps[n].Leave? && steps[n].producer == states[n].entries[d]
  {
    RunKeepsInv(steps, states, n);
    assert Follows(states[n], steps[n], states[n + 1]);
  }

  /** Once every producer has exited, the registry is empty and every watcher has a result. */
  lemma QuietMeansDone(steps: seq<Step>, states: seq<State>, n: nat)
    requires IsRun(steps, states) && n < |states|
    requires forall p :: 0 <= p < |states[n].producers| ==> states[n].producers[p].phase == Exited
    ensures states[n].entries == map[]
    ensures forall p :: 0 <= p < |states[n].channels| ==> states[n].channels[p].done.Some?
  {
    RunKeepsInv(steps, states, n);
    assert forall d :: d !in states[n].entries;
  }

  /** From any reachable state, every producer can still be brought to its exit: nothing another actor does disables a
      producer's own leave or publish step. */
  lemma OwnStepsStayEnabled(steps: seq<Step>, states: seq<State>, n: nat, p: nat)
    requires IsRun(steps, states) && n < |steps| && p < |states[n].producers|
    requires steps[n] != Publish(p) && !(steps[n].Leave? && steps[n].producer == p)
    ensures p < |states[n + 1].producers| && states[n + 1].producers[p] == states[n].producers[p]
  {
    RunKeepsInv(steps, states, n);
    assert Follows(states[n], steps[n], states[n + 1]);
  }
}
