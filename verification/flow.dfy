/** core/flow.py: a Flow follows successor links from its start node until
    a node returns an action its successor map does not hold; a BatchNode
    runs the retry loop once per item; a BatchFlow runs the flow once per
    parameter set and restores its parameters afterwards.

    What a node does when the walk reaches it is an oracle `act(n, k)`:
    the outcome of running node `n` as the k-th step of this walk (nodes
    read and write the shared store, so the step number is part of what
    they see). The walk has no bound of its own, so the model carries fuel;
    a walk that runs out of fuel is one `Flow.run` would still be running. */
module Flows {
  import opened Base
  import opened Nodes
  import opened Successors

  /** How a walk stopped: an unmapped action (normal completion), an
      exception from a node, or fuel exhausted. */
  datatype WalkEnd = Ended | Crashed(exc: Exc) | Unfinished

  /** The nodes run, in order, the actions they returned, and how the walk
      stopped. */
  datatype Walk<N> = Walk(path: seq<N>, actions: seq<Label>, end: WalkEnd)

  /** The walk from `current`, which runs as step `k`. */
  function WalkFrom<N>(g: Graph<N>, act: (N, nat) -> Outcome, current: N, k: nat, fuel: nat): (w: Walk<N>)
    ensures fuel == 0 <==> w.path == []
    ensures |w.path| <= fuel
    ensures fuel > 0 ==> w.path[0] == current
    ensures w.end.Crashed? ==> |w.actions| == |w.path| - 1
    ensures !w.end.Crashed? ==> |w.actions| == |w.path|
    ensures w.end.Ended? ==> |w.path| > 0 && w.actions[|w.path| - 1] !in SuccessorsOf(g, w.path[|w.path| - 1])
    ensures w.end.Crashed? ==> |w.path| > 0 && act(w.path[|w.path| - 1], k + |w.path| - 1) == Raised(w.end.exc)
    ensures w.end.Unfinished? ==> |w.path| == fuel
    decreases fuel
  {
    if fuel == 0 then Walk([], [], Unfinished)
    else
      match act(current, k)
      case Raised(e) => Walk([current], [], Crashed(e))
      case Action(a) =>
        if a !in SuccessorsOf(g, current) then Walk([current], [a], Ended)
        else
          var rest := WalkFrom(g, act, SuccessorsOf(g, current)[a], k + 1, fuel - 1);
          Walk([current] + rest.path, [a] + rest.actions, rest.end)
  }

  /** Each node of the walk returned the recorded action at its step. */
  predicate ActsRecorded<N>(act: (N, nat) -> Outcome, w: Walk<N>, k: nat) {
    |w.actions| <= |w.path|
    && forall i :: 0 <= i < |w.actions| ==> act(w.path[i], k + i) == Action(w.actions[i])
  }

  /** Each node after the first is the successor the previous node's
      action selects. */
  predicate LinksFollowed<N>(g: Graph<N>, w: Walk<N>) {
    |w.path| <= |w.actions| + 1
    && forall i :: 0 <= i < |w.path| - 1 ==>
         w.actions[i] in SuccessorsOf(g, w.path[i]) && w.path[i + 1] == SuccessorsOf(g, w.path[i])[w.actions[i]]
  }

  lemma {:induction false} WalkSteps<N>(g: Graph<N>, act: (N, nat) -> Outcome, current: N, k: nat, fuel: nat)
    ensures ActsRecorded(act, WalkFrom(g, act, current, k, fuel), k)
    ensures LinksFollowed(g, WalkFrom(g, act, current, k, fuel))
    decreases fuel
  {
    if fuel > 0 && act(current, k).Action? && act(current, k).action in SuccessorsOf(g, current) {
      var a := act(current, k).action;
      var next := SuccessorsOf(g, current)[a];
      WalkSteps(g, act, next, k + 1, fuel - 1);
      var rest := WalkFrom(g, act, next, k + 1, fuel - 1);
      ConsSteps(g, act, current, a, rest, k);
    }
  }

  lemma ConsSteps<N>(g: Graph<N>, act: (N, nat) -> Outcome, current: N, a: Label, rest: Walk<N>, k: nat)
    requires act(current, k) == Action(a) && a in SuccessorsOf(g, current)
    requires rest.path != [] ==> rest.path[0] == SuccessorsOf(g, current)[a]
    requires ActsRecorded(act, rest, k + 1) && LinksFollowed(g, rest)
    ensures ActsRecorded(act, Walk([current] + rest.path, [a] + rest.actions, rest.end), k)
    ensures LinksFollowed(g, Walk([current] + rest.path, [a] + rest.actions, rest.end))
  {
    var path, actions := [current] + rest.path, [a] + rest.actions;
    assert forall i :: 1 <= i < |path| ==> path[i] == rest.path[i - 1];
    assert forall i :: 1 <= i < |actions| ==> actions[i] == rest.actions[i - 1];
  }

  /** The observable steps of Flow.run. */
  datatype FlowEvent<N> = FlowPrep | RunNode(node: N) | FlowPost(last: Label)

  /** One Flow.run: its trace and, when it finished within the fuel, its
      outcome. */
  datatype FlowRun<N> = FlowRun(trace: seq<FlowEvent<N>>, walk: Walk<N>, outcome: Option<Outcome>)

  function NodeEvents<N>(path: seq<N>): (r: seq<FlowEvent<N>>)
    ensures |r| == |path| && forall i :: 0 <= i < |path| ==> r[i] == RunNode(path[i])
  {
    seq(|path|, i requires 0 <= i < |path| => RunNode(path[i]))
  }

  /** Flow.run: the flow's own prep, the walk from `start`, then the flow's
      own post with the last node's action; its label, or "default" when
      post returns None, is what the flow returns, and what it raises
      propagates. */
  function RunFlow<N>(g: Graph<N>, start: N, act: (N, nat) -> Outcome,
                      flowPost: Label -> Attempt<Option<Label>>, fuel: nat): (r: FlowRun<N>)
    ensures r.walk.end.Ended? ==> 0 < |r.walk.actions| == |r.walk.path|
    ensures r.walk.end.Ended? ==>
              r.outcome == Some(AfterPost(flowPost(r.walk.actions[|r.walk.actions| - 1])))
    ensures r.walk.end.Crashed? ==> r.outcome == Some(Raised(r.walk.end.exc))
    ensures r.walk.end.Unfinished? ==> r.outcome == None
  {
    var w := WalkFrom(g, act, start, 0, fuel);
    if w.end.Ended? then
      var last := w.actions[|w.actions| - 1];
      FlowRun(FlowTrace(w.path, Some(last)), w, Some(AfterPost(flowPost(last))))
    else if w.end.Crashed? then
      FlowRun(FlowTrace(w.path, None), w, Some(Raised(w.end.exc)))
    else
      FlowRun(FlowTrace(w.path, None), w, None)
  }

  /** The flow's prep, one event per node of the walk, and the flow's post
      when the walk ended with action `last`. */
  function FlowTrace<N>(path: seq<N>, last: Option<Label>): seq<FlowEvent<N>> {
    [FlowPrep] + NodeEvents(path) + (if last.Some? then [FlowPost(last.value)] else [])
  }

  /** Prep once and first, then one event per node in order, then post
      once and last exactly when there is a last action. */
  lemma TraceShape<N>(path: seq<N>, last: Option<Label>)
    ensures var t := FlowTrace(path, last);
            && |t| >= 1 + |path| && t[0] == FlowPrep
            && (forall i :: 0 <= i < |path| ==> t[i + 1] == RunNode(path[i]))
            && (forall i :: 1 <= i < |t| ==> t[i] != FlowPrep)
            && (last.Some? <==> t[|t| - 1].FlowPost?)
            && (forall i :: 0 <= i < |t| - 1 ==> !t[i].FlowPost?)
            && (last.Some? ==> t[|t| - 1] == FlowPost(last.value))
  {
    var body := [FlowPrep] + NodeEvents(path);
    assert forall i :: 1 <= i < |body| ==> body[i] == RunNode(path[i - 1]);
  }

  /** The action the walk ended with, if it ended normally. */
  function LastAction<N>(w: Walk<N>): Option<Label> {
    if w.end.Ended? && w.actions != [] then Some(w.actions[|w.actions| - 1]) else None
  }

  /** A run's trace is the flow's prep, then the nodes of the walk in order
      starting with `start`, then the flow's post exactly when the walk
      ended on an unmapped action (`TraceShape` spells the shape out). */
  lemma FlowRunShape<N>(g: Graph<N>, start: N, act: (N, nat) -> Outcome,
                        flowPost: Label -> Attempt<Option<Label>>, fuel: nat)
    ensures var r := RunFlow(g, start, act, flowPost, fuel);
            r.trace == FlowTrace(r.walk.path, LastAction(r.walk))
            && (r.walk.end.Ended? <==> LastAction(r.walk).Some?)
            && (fuel > 0 ==> r.walk.path != [] && r.walk.path[0] == start)
  {
  }

  /** Revisiting a node is not an error: a node whose action leads back to
      itself keeps the walk going for as long as there is fuel. */
  lemma {:induction false} SelfLoopNeverEnds<N>(g: Graph<N>, act: (N, nat) -> Outcome, n: N, a: Label, k: nat, fuel: nat)
    requires a in SuccessorsOf(g, n) && SuccessorsOf(g, n)[a] == n
    requires forall j :: k <= j ==> act(n, j) == Action(a)
    ensures WalkFrom(g, act, n, k, fuel).end == Unfinished
    ensures forall i :: 0 <= i < |WalkFrom(g, act, n, k, fuel).path| ==> WalkFrom(g, act, n, k, fuel).path[i] == n
    decreases fuel
  {
    if fuel > 0 {
      SelfLoopNeverEnds(g, act, n, a, k + 1, fuel - 1);
      var rest := WalkFrom(g, act, n, k + 1, fuel - 1);
      var w := WalkFrom(g, act, n, k, fuel);
      assert w.path == [n] + rest.path;
    }
  }

  /** A walk in which every action a node returns has a successor never
      completes normally: it either raises or is still running. */
  lemma {:induction false} AllMappedNeverEnds<N>(g: Graph<N>, act: (N, nat) -> Outcome, current: N, k: nat, fuel: nat)
    requires forall n, j :: act(n, j).Action? ==> act(n, j).action in SuccessorsOf(g, n)
    ensures WalkFrom(g, act, current, k, fuel).end != Ended
    decreases fuel
  {
    if fuel > 0 {
      var o := act(current, k);
      if o.Action? {
        assert o.action in SuccessorsOf(g, current);
        AllMappedNeverEnds(g, act, SuccessorsOf(g, current)[o.action], k + 1, fuel - 1);
      }
    }
  }

  // ---------------------------------------------------------------------
  // BatchNode
  // ---------------------------------------------------------------------

  /** What one item of a BatchNode contributes: a result, nothing (the
      retry loop never ran), or an exception from its fallback. */
  datatype ItemEnd<R> = Value(v: R) | Skipped | Crash(e: Exc)

  /** The per-item retry loop is the same loop as Node.run's, with the
      retry counter reset for the item; the item's result is what post
      would have received. */
  function ItemExec<R>(exec: (nat, nat) -> Attempt<R>, i: nat): nat -> Attempt<R> {
    (k: nat) => exec(i, k)
  }

  function ItemFallback<R>(fallback: (nat, Exc) -> Fallback<R>, i: nat): Exc -> Fallback<R> {
    e => fallback(i, e)
  }

  function NoPost<R>(): Option<R> -> Attempt<Option<Label>> {
    _ => Returned(None)
  }

  function ItemRun<R>(cfg: Config, exec: nat -> Attempt<R>, fallback: Exc -> Fallback<R>): ItemEnd<R> {
    var r := NodeRunSpec(cfg, None, exec, fallback, NoPost());
    if r.outcome.Raised? then Crash(r.outcome.exc)
    else if r.received.Some? then Value(r.received.value)
    else Skipped
  }

  /** The results of the first `n` items, or the exception that stopped
      the batch. */
  function BatchUpTo<R>(cfg: Config, exec: (nat, nat) -> Attempt<R>, fallback: (nat, Exc) -> Fallback<R>, n: nat)
    : Result<R>
    decreases n
  {
    if n == 0 then Done([])
    else
      match BatchUpTo(cfg, exec, fallback, n - 1)
      case Stopped(e) => Stopped(e)
      case Done(rs) =>
        match ItemRun(cfg, ItemExec(exec, n - 1), ItemFallback(fallback, n - 1))
        case Value(v) => Done(rs + [v])
        case Skipped => Done(rs)
        case Crash(e) => Stopped(e)
  }

  datatype Result<R> = Done(results: seq<R>) | Stopped(exc: Exc)

  /** BatchNode.run over `count` prepared items: item i's k-th attempt is
      `exec(i, k)`; post receives the list of results. */
  method RunBatch<R>(cfg: Config, count: nat, exec: (nat, nat) -> Attempt<R>, fallback: (nat, Exc) -> Fallback<R>,
                     post: seq<R> -> Attempt<Option<Label>>) returns (results: seq<R>, outcome: Outcome)
    ensures BatchUpTo(cfg, exec, fallback, count).Done? ==>
              results == BatchUpTo(cfg, exec, fallback, count).results && outcome == AfterPost(post(results))
    ensures BatchUpTo(cfg, exec, fallback, count).Stopped? ==> outcome == Raised(BatchUpTo(cfg, exec, fallback, count).exc)
  {
    results := [];
    var i := 0;
    while i < count
      invariant 0 <= i <= count
      invariant BatchUpTo(cfg, exec, fallback, i) == Done(results)
    {
      var run := Nodes.Run(cfg, None, ItemExec(exec, i), ItemFallback(fallback, i), NoPost());
      BatchStep(cfg, exec, fallback, i, results);
      if run.outcome.Raised? {
        BatchStoppedStays(cfg, exec, fallback, i + 1, count);
        return results, run.outcome;
      }
      if run.received.Some? {
        results := results + [run.received.value];
      }
      i := i + 1;
    }
    outcome := AfterPost(post(results));
  }

  /** One more item: its run either stops the batch with its exception or
      adds what it received, if anything. */
  lemma BatchStep<R>(cfg: Config, exec: (nat, nat) -> Attempt<R>, fallback: (nat, Exc) -> Fallback<R>,
                     i: nat, results: seq<R>)
    requires BatchUpTo(cfg, exec, fallback, i) == Done(results)
    ensures var run := NodeRunSpec(cfg, None, ItemExec(exec, i), ItemFallback(fallback, i), NoPost());
      && (run.outcome.Raised? ==> BatchUpTo(cfg, exec, fallback, i + 1) == Stopped(run.outcome.exc))
      && (!run.outcome.Raised? && run.received.Some? ==>
            BatchUpTo(cfg, exec, fallback, i + 1) == Done(results + [run.received.value]))
      && (!run.outcome.Raised? && run.received.None? ==> BatchUpTo(cfg, exec, fallback, i + 1) == Done(results))
  {
  }

  lemma {:induction false} BatchStoppedStays<R>(cfg: Config, exec: (nat, nat) -> Attempt<R>,
                                                fallback: (nat, Exc) -> Fallback<R>, n: nat, m: nat)
    requires n <= m && BatchUpTo(cfg, exec, fallback, n).Stopped?
    ensures BatchUpTo(cfg, exec, fallback, m) == BatchUpTo(cfg, exec, fallback, n)
    decreases m - n
  {
    if n < m {
      BatchStoppedStays(cfg, exec, fallback, n, m - 1);
    }
  }

  /** With at least one attempt allowed, no attempt raising anything but
      an `Exception` and no fallback that raises, the batch has exactly one
      result per item, in item order. */
  lemma {:induction false} BatchOneResultPerItem<R>(cfg: Config, exec: (nat, nat) -> Attempt<R>,
                                                    fallback: (nat, Exc) -> Fallback<R>, n: nat)
    requires cfg.maxRetries >= 1
    requires forall i, k :: 0 <= i < n && exec(i, k).Failed? ==> exec(i, k).exc.IsError()
    requires forall i, e :: 0 <= i < n ==> fallback(i, e).Recover?
    ensures BatchUpTo(cfg, exec, fallback, n).Done?
    ensures |BatchUpTo(cfg, exec, fallback, n).results| == n
    ensures forall i :: 0 <= i < n ==>
              ItemRun(cfg, ItemExec(exec, i), ItemFallback(fallback, i)) == Value(BatchUpTo(cfg, exec, fallback, n).results[i])
    decreases n
  {
    if n > 0 {
      BatchOneResultPerItem(cfg, exec, fallback, n - 1);
      var ex := ItemExec(exec, n - 1);
      var fb := ItemFallback(fallback, n - 1);
      assert forall k :: ex(k) == exec(n - 1, k);
      assert forall e :: fb(e) == fallback(n - 1, e);
      ItemGivesValue(cfg, ex, fb);
    }
  }

  /** An item whose attempts raise only `Exception`s and whose fallback
      recovers gives a result. */
  lemma ItemGivesValue<R>(cfg: Config, exec: nat -> Attempt<R>, fallback: Exc -> Fallback<R>)
    requires cfg.maxRetries >= 1
    requires forall k :: exec(k).Failed? ==> exec(k).exc.IsError()
    requires forall e :: fallback(e).Recover?
    ensures ItemRun(cfg, exec, fallback).Value?
  {
    if FirstStop(exec, cfg.maxRetries).None? {
      assert fallback(exec(cfg.maxRetries - 1).exc).Recover?;
    }
  }

  // ---------------------------------------------------------------------
  // BatchFlow
  // ---------------------------------------------------------------------

  /** One BatchFlow.run: the parameters each pass ran with, the actions
      the passes returned, the flow's parameters afterwards, and the
      outcome. */
  datatype BatchFlowRun<V> = BatchFlowRun(ranWith: seq<map<string, V>>, actions: seq<Label>,
                                          params: map<string, V>, outcome: Outcome)

  /** Passes `i..` of a BatchFlow whose original parameters are `original`;
      `runFlow(i, p)` is the outcome of the i-th pass run with parameters p.
      An exception leaves the merged parameters in place. */
  function BatchFlowFrom<V>(original: map<string, V>, sets: seq<map<string, V>>,
                            runFlow: (nat, map<string, V>) -> Outcome, i: nat): (r: BatchFlowRun<V>)
    requires i <= |sets|
    ensures |r.ranWith| == |r.actions| + (if r.outcome.Raised? then 1 else 0)
    ensures |r.ranWith| <= |sets| - i
    ensures r.outcome.Action? ==> |r.actions| == |sets| - i && r.params == original
    ensures r.outcome.Raised? ==>
              var j := i + |r.actions|;
              j < |sets| && r.params == original + sets[j] && runFlow(j, original + sets[j]) == r.outcome
    decreases |sets| - i
  {
    if i == |sets| then BatchFlowRun([], [], original, Action(DefaultLabel))
    else
      var merged := original + sets[i];
      match runFlow(i, merged)
      case Raised(e) => BatchFlowRun([merged], [], merged, Raised(e))
      case Action(a) =>
        var rest := BatchFlowFrom(original, sets, runFlow, i + 1);
        BatchFlowRun([merged] + rest.ranWith, [a] + rest.actions, rest.params, rest.outcome)
  }

  /** Pass `j` of `ran` ran with the original parameters overridden by set
      `i + j`. */
  ghost predicate MergedRuns<V>(ran: seq<map<string, V>>, original: map<string, V>, sets: seq<map<string, V>>, i: nat) {
    && i + |ran| <= |sets|
    && forall j :: 0 <= j < |ran| ==> ran[j] == original + sets[i + j]
  }

  /** Each recorded action is what its pass returned. */
  ghost predicate RecordedActions<V>(actions: seq<Label>, original: map<string, V>, sets: seq<map<string, V>>,
                               runFlow: (nat, map<string, V>) -> Outcome, i: nat) {
    && i + |actions| <= |sets|
    && forall j :: 0 <= j < |actions| ==> runFlow(i + j, original + sets[i + j]) == Action(actions[j])
  }

  lemma {:induction false} BatchPasses<V>(original: map<string, V>, sets: seq<map<string, V>>,
                                          runFlow: (nat, map<string, V>) -> Outcome, i: nat)
    requires i <= |sets|
    ensures var r := BatchFlowFrom(original, sets, runFlow, i);
      MergedRuns(r.ranWith, original, sets, i) && RecordedActions(r.actions, original, sets, runFlow, i)
    decreases |sets| - i
  {
    if i < |sets| {
      var merged := original + sets[i];
      if runFlow(i, merged).Action? {
        BatchPasses(original, sets, runFlow, i + 1);
        var rest := BatchFlowFrom(original, sets, runFlow, i + 1);
        ConsPass(merged, runFlow(i, merged).action, rest.ranWith, rest.actions, original, sets, runFlow, i);
      } else {
        assert BatchFlowFrom(original, sets, runFlow, i).ranWith == [merged];
      }
    }
  }

  lemma ConsPass<V>(merged: map<string, V>, a: Label, ran: seq<map<string, V>>, actions: seq<Label>,
                    original: map<string, V>, sets: seq<map<string, V>>,
                    runFlow: (nat, map<string, V>) -> Outcome, i: nat)
    requires i < |sets| && merged == original + sets[i] && runFlow(i, merged) == Action(a)
    requires MergedRuns(ran, original, sets, i + 1) && RecordedActions(actions, original, sets, runFlow, i + 1)
    ensures MergedRuns([merged] + ran, original, sets, i) && RecordedActions([a] + actions, original, sets, runFlow, i)
  {
    var ran' := [merged] + ran;
    var actions' := [a] + actions;
    forall j | 0 <= j < |ran'|
      ensures ran'[j] == original + sets[i + j]
    {
      if j > 0 {
        assert ran'[j] == ran[j - 1];
        assert i + 1 + (j - 1) == i + j;
      }
    }
    forall j | 0 <= j < |actions'|
      ensures runFlow(i + j, original + sets[i + j]) == Action(actions'[j])
    {
      if j > 0 {
        assert actions'[j] == actions[j - 1];
        assert i + 1 + (j - 1) == i + j;
      }
    }
  }

  /** The keys and values of a merged pass. */
  lemma MergedKeys<V>(ran: seq<map<string, V>>, original: map<string, V>, sets: seq<map<string, V>>)
    requires MergedRuns(ran, original, sets, 0)
    ensures forall j :: 0 <= j < |ran| ==>
              forall key :: key in ran[j] <==> key in original || key in sets[j]
    ensures forall j, key :: 0 <= j < |ran| && key in sets[j] ==> ran[j][key] == sets[j][key]
    ensures forall j, key :: 0 <= j < |ran| && key in original && key !in sets[j] ==>
              ran[j][key] == original[key]
  {
    forall j | 0 <= j < |ran|
      ensures ran[j] == original + sets[j]
    {
      assert 0 + j == j;
    }
  }

  /** BatchFlow.run: one pass per parameter set, each with the original
      parameters overridden by that set; afterwards the parameters are the
      original ones and post receives one action per set. */
  function RunBatchFlow<V>(original: map<string, V>, sets: seq<map<string, V>>,
                           runFlow: (nat, map<string, V>) -> Outcome,
                           post: seq<Label> -> Attempt<Option<Label>>): (r: BatchFlowRun<V>)
    ensures |r.ranWith| <= |sets|
    ensures r.outcome.Action? ==> |r.actions| == |sets|
    ensures |r.actions| == |sets| ==>
              && |r.ranWith| == |sets|
              && r.params == original
              && r.outcome == AfterPost(post(r.actions))
    ensures forall j :: 0 <= j < |r.ranWith| ==>
              forall key :: key in r.ranWith[j] <==> key in original || key in sets[j]
    ensures forall j, key :: 0 <= j < |r.ranWith| && key in sets[j] ==> r.ranWith[j][key] == sets[j][key]
    ensures forall j, key :: 0 <= j < |r.ranWith| && key in original && key !in sets[j] ==>
              r.ranWith[j][key] == original[key]
  {
    BatchPasses(original, sets, runFlow, 0);
    var b := BatchFlowFrom(original, sets, runFlow, 0);
    MergedKeys(b.ranWith, original, sets);
    if b.outcome.Raised? then b
    else b.(outcome := AfterPost(post(b.actions)))
  }
}
