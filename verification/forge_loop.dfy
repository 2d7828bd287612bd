/** The forge loop of engine/forge_loop.py: the node graph the constructor
    wires, and `run_forge`, which runs that graph as a Flow once per
    iteration until the emergency-stop flag appears or the iteration bound
    is reached.

    The flag file and each Flow run are oracles: `stopAt(p)` is whether the
    flag exists when pass `p` begins, and `step(p, s)` is what the p-th Flow
    run does to the shared store `s` and how it ends. The loop has no bound
    of its own when `max_iterations` is None, so the model carries fuel. */
module Forge {
  import opened Base
  import opened Nodes
  import opened Successors
  import opened Flows

  // ---------------------------------------------------------------------
  // the node graph
  // ---------------------------------------------------------------------

  /** The nodes the constructor creates; `Builder(i)` is the flow builder
      whose "variant_idx" parameter is `i`. */
  datatype ForgeNode = GoalProposer | MutationEngine | Builder(i: nat) | TestHarness | Scorer

  /** `a - label >> b`: the successor update of `Successors.WireOn`, used here
      without that function's contract, which the proofs below do not
      need. */
  function Link(g: Graph<ForgeNode>, a: ForgeNode, lbl: Label, b: ForgeNode): Graph<ForgeNode> {
    g[a := SuccessorsOf(g, a)[lbl := b]]
  }

  /** `Link` is the wiring every node's `>>` performs. */
  lemma LinkIsWireOn(g: Graph<ForgeNode>, a: ForgeNode, lbl: Label, b: ForgeNode)
    ensures Link(g, a, lbl, b) == WireOn(g, a, lbl, b)
    ensures lbl == DefaultLabel ==> Link(g, a, lbl, b) == Wire(g, a, b)
  {
  }

  /** One pass of the constructor's builder loop: `mutation_engine >>
      builder`, `builder >> test_harness`, and the harness's two labelled
      edges (re-wired, to the same nodes, on every pass). */
  function WireBuilder(g: Graph<ForgeNode>, j: nat): Graph<ForgeNode> {
    var g1 := Link(g, MutationEngine, DefaultLabel, Builder(j));
    var g2 := Link(g1, Builder(j), DefaultLabel, TestHarness);
    var g3 := Link(g2, TestHarness, SuccessLabel, Scorer);
    Link(g3, TestHarness, FailLabel, GoalProposer)
  }

  /** The wiring for the first `k` builders. */
  function WireBuilders(g: Graph<ForgeNode>, k: nat): (r: Graph<ForgeNode>)
    decreases k
  {
    if k == 0 then g else WireBuilder(WireBuilders(g, k - 1), k - 1)
  }

  /** The graph `ForgeLoop.__init__` builds for `nVariants` builders; the
      flow starts at the goal proposer. */
  function Wiring(nVariants: int): Graph<ForgeNode> {
    var g0 := Link(map[], GoalProposer, DefaultLabel, MutationEngine);
    ScorerLinks(WireBuilders(g0, if nVariants < 0 then 0 else nVariants))
  }

  /** One pass of the builder loop points the mutation engine at its
      builder. */
  lemma MutationEngineRewired(g: Graph<ForgeNode>, j: nat)
    ensures SuccessorsOf(WireBuilder(g, j), MutationEngine) == SuccessorsOf(g, MutationEngine)[DefaultLabel := Builder(j)]
  {
  }

  /** One pass of the builder loop points its builder at the harness and
      leaves the other builders alone. */
  lemma BuilderRewired(g: Graph<ForgeNode>, j: nat, i: nat)
    ensures i == j ==> SuccessorsOf(WireBuilder(g, j), Builder(i)) == SuccessorsOf(g, Builder(i))[DefaultLabel := TestHarness]
    ensures i != j ==> SuccessorsOf(WireBuilder(g, j), Builder(i)) == SuccessorsOf(g, Builder(i))
  {
  }

  /** One pass of the builder loop sets the harness's two edges and leaves
      the proposer and the scorer alone. */
  lemma HarnessRewired(g: Graph<ForgeNode>, j: nat)
    ensures SuccessorsOf(WireBuilder(g, j), TestHarness) == SuccessorsOf(g, TestHarness)[SuccessLabel := Scorer][FailLabel := GoalProposer]
    ensures SuccessorsOf(WireBuilder(g, j), GoalProposer) == SuccessorsOf(g, GoalProposer)
    ensures SuccessorsOf(WireBuilder(g, j), Scorer) == SuccessorsOf(g, Scorer)
  {
  }

  /** After `k > 0` passes the mutation engine's only successor is the last
      builder: each `mutation_engine >> builder` overwrites the previous
      one. */
  lemma {:induction false} MutationEngineWiredLast(g: Graph<ForgeNode>, k: nat)
    requires SuccessorsOf(g, MutationEngine) == map[]
    ensures k > 0 ==> SuccessorsOf(WireBuilders(g, k), MutationEngine) == map[DefaultLabel := Builder(k - 1)]
    ensures k == 0 ==> SuccessorsOf(WireBuilders(g, k), MutationEngine) == map[]
    decreases k
  {
    if k > 0 {
      var prev := WireBuilders(g, k - 1);
      MutationEngineWiredLast(g, k - 1);
      MutationEngineStep(prev, k - 1);
      assert WireBuilders(g, k) == WireBuilder(prev, k - 1);
    }
  }

  lemma MutationEngineStep(prev: Graph<ForgeNode>, j: nat)
    requires j > 0 ==> SuccessorsOf(prev, MutationEngine) == map[DefaultLabel := Builder(j - 1)]
    requires j == 0 ==> SuccessorsOf(prev, MutationEngine) == map[]
    ensures SuccessorsOf(WireBuilder(prev, j), MutationEngine) == map[DefaultLabel := Builder(j)]
  {
    MutationEngineRewired(prev, j);
  }

  /** Each wired builder leads to the harness; the others have no
      successor. */
  lemma BuildersWired(g: Graph<ForgeNode>, k: nat)
    requires forall i: nat :: SuccessorsOf(g, Builder(i)) == map[]
    ensures forall i: nat :: i < k ==> SuccessorsOf(WireBuilders(g, k), Builder(i)) == map[DefaultLabel := TestHarness]
    ensures forall i: nat :: i >= k ==> SuccessorsOf(WireBuilders(g, k), Builder(i)) == map[]
  {
    forall i: nat
      ensures SuccessorsOf(WireBuilders(g, k), Builder(i)) == if i < k then map[DefaultLabel := TestHarness] else map[]
    {
      BuilderWired(g, k, i);
    }
  }

  /** Builder `i` after `k` passes of the builder loop. */
  lemma {:induction false} BuilderWired(g: Graph<ForgeNode>, k: nat, i: nat)
    requires SuccessorsOf(g, Builder(i)) == map[]
    ensures SuccessorsOf(WireBuilders(g, k), Builder(i)) == if i < k then map[DefaultLabel := TestHarness] else map[]
    decreases k
  {
    if k > 0 {
      var prev := WireBuilders(g, k - 1);
      BuilderWired(g, k - 1, i);
      BuilderWiredStep(prev, k, i);
      assert WireBuilders(g, k) == WireBuilder(prev, k - 1);
    }
  }

  lemma BuilderWiredStep(prev: Graph<ForgeNode>, k: nat, i: nat)
    requires k > 0
    requires SuccessorsOf(prev, Builder(i)) == if i < k - 1 then map[DefaultLabel := TestHarness] else map[]
    ensures SuccessorsOf(WireBuilder(prev, k - 1), Builder(i)) == if i < k then map[DefaultLabel := TestHarness] else map[]
  {
    BuilderRewired(prev, k - 1, i);
  }

  /** The harness routes "success" to the scorer and "fail" to the
      proposer once a builder is wired. */
  lemma {:induction false} HarnessWired(g: Graph<ForgeNode>, k: nat)
    requires SuccessorsOf(g, TestHarness) == map[]
    ensures k > 0 ==> SuccessorsOf(WireBuilders(g, k), TestHarness) == map[SuccessLabel := Scorer, FailLabel := GoalProposer]
    ensures k == 0 ==> SuccessorsOf(WireBuilders(g, k), TestHarness) == map[]
    decreases k
  {
    if k > 0 {
      var prev := WireBuilders(g, k - 1);
      HarnessWired(g, k - 1);
      HarnessStep(prev, k - 1);
      assert WireBuilders(g, k) == WireBuilder(prev, k - 1);
    }
  }

  lemma HarnessStep(prev: Graph<ForgeNode>, j: nat)
    requires j > 0 ==> SuccessorsOf(prev, TestHarness) == map[SuccessLabel := Scorer, FailLabel := GoalProposer]
    requires j == 0 ==> SuccessorsOf(prev, TestHarness) == map[]
    ensures SuccessorsOf(WireBuilder(prev, j), TestHarness) == map[SuccessLabel := Scorer, FailLabel := GoalProposer]
  {
    HarnessRewired(prev, j);
  }

  /** The builder loop leaves the proposer and the scorer alone. */
  lemma {:induction false} ProposerAndScorerKept(g: Graph<ForgeNode>, k: nat)
    ensures SuccessorsOf(WireBuilders(g, k), GoalProposer) == SuccessorsOf(g, GoalProposer)
    ensures SuccessorsOf(WireBuilders(g, k), Scorer) == SuccessorsOf(g, Scorer)
    decreases k
  {
    if k > 0 {
      var prev := WireBuilders(g, k - 1);
      ProposerAndScorerKept(g, k - 1);
      KeptStep(prev, k - 1, SuccessorsOf(g, GoalProposer), SuccessorsOf(g, Scorer));
      assert WireBuilders(g, k) == WireBuilder(prev, k - 1);
    }
  }

  lemma KeptStep(prev: Graph<ForgeNode>, j: nat, p: map<Label, ForgeNode>, q: map<Label, ForgeNode>)
    requires SuccessorsOf(prev, GoalProposer) == p && SuccessorsOf(prev, Scorer) == q
    ensures SuccessorsOf(WireBuilder(prev, j), GoalProposer) == p
    ensures SuccessorsOf(WireBuilder(prev, j), Scorer) == q
  {
    HarnessRewired(prev, j);
  }

  /** The graph before the builder loop. */
  lemma ProposerWired()
    ensures var g0: Graph<ForgeNode> := Link(map[], GoalProposer, DefaultLabel, MutationEngine);
      SuccessorsOf(g0, MutationEngine) == map[] && SuccessorsOf(g0, TestHarness) == map[]
      && (forall i: nat :: SuccessorsOf(g0, Builder(i)) == map[])
      && SuccessorsOf(g0, GoalProposer) == map[DefaultLabel := MutationEngine]
      && SuccessorsOf(g0, Scorer) == map[]
  {
  }

  /** The successor maps `__init__` leaves behind. */
  lemma WiringShape(nVariants: int)
    ensures SuccessorsOf(Wiring(nVariants), GoalProposer) == map[DefaultLabel := MutationEngine]
    ensures nVariants > 0 ==> SuccessorsOf(Wiring(nVariants), MutationEngine) == map[DefaultLabel := Builder(nVariants - 1)]
    ensures nVariants <= 0 ==> SuccessorsOf(Wiring(nVariants), MutationEngine) == map[]
    ensures forall i: nat :: i < nVariants ==> SuccessorsOf(Wiring(nVariants), Builder(i)) == map[DefaultLabel := TestHarness]
    ensures forall i: nat :: i >= nVariants ==> SuccessorsOf(Wiring(nVariants), Builder(i)) == map[]
    ensures nVariants > 0 ==> SuccessorsOf(Wiring(nVariants), TestHarness) == map[SuccessLabel := Scorer, FailLabel := GoalProposer]
    ensures nVariants <= 0 ==> SuccessorsOf(Wiring(nVariants), TestHarness) == map[]
    ensures SuccessorsOf(Wiring(nVariants), Scorer) == map[SuccessLabel := GoalProposer, FailLabel := GoalProposer]
  {
    var g0: Graph<ForgeNode> := Link(map[], GoalProposer, DefaultLabel, MutationEngine);
    var k := if nVariants < 0 then 0 else nVariants;
    ProposerWired();
    WiredFrom(g0, k, Wiring(nVariants));
  }

  /** The wiring after the builder loop and the scorer's edges, from any
      graph shaped like the one before the loop. */
  lemma WiredFrom(g0: Graph<ForgeNode>, k: nat, w: Graph<ForgeNode>)
    requires w == ScorerLinks(WireBuilders(g0, k))
    requires SuccessorsOf(g0, MutationEngine) == map[] && SuccessorsOf(g0, TestHarness) == map[]
    requires forall i: nat :: SuccessorsOf(g0, Builder(i)) == map[]
    requires SuccessorsOf(g0, Scorer) == map[]
    ensures SuccessorsOf(w, GoalProposer) == SuccessorsOf(g0, GoalProposer)
    ensures k > 0 ==> SuccessorsOf(w, MutationEngine) == map[DefaultLabel := Builder(k - 1)]
    ensures k == 0 ==> SuccessorsOf(w, MutationEngine) == map[]
    ensures forall i: nat :: i < k ==> SuccessorsOf(w, Builder(i)) == map[DefaultLabel := TestHarness]
    ensures forall i: nat :: i >= k ==> SuccessorsOf(w, Builder(i)) == map[]
    ensures k > 0 ==> SuccessorsOf(w, TestHarness) == map[SuccessLabel := Scorer, FailLabel := GoalProposer]
    ensures k == 0 ==> SuccessorsOf(w, TestHarness) == map[]
    ensures SuccessorsOf(w, Scorer) == map[SuccessLabel := GoalProposer, FailLabel := GoalProposer]
  {
    MutationEngineWiredLast(g0, k);
    BuildersWired(g0, k);
    HarnessWired(g0, k);
    ProposerAndScorerKept(g0, k);
    ScorerLinked(WireBuilders(g0, k));
  }

  /** The scorer's two edges, wired after the builder loop. */
  function ScorerLinks(g: Graph<ForgeNode>): Graph<ForgeNode> {
    Link(Link(g, Scorer, SuccessLabel, GoalProposer), Scorer, FailLabel, GoalProposer)
  }

  lemma ScorerLinked(g: Graph<ForgeNode>)
    requires SuccessorsOf(g, Scorer) == map[]
    ensures SuccessorsOf(ScorerLinks(g), Scorer) == map[SuccessLabel := GoalProposer, FailLabel := GoalProposer]
    ensures forall n :: n != Scorer ==> SuccessorsOf(ScorerLinks(g), n) == SuccessorsOf(g, n)
  {
    var g2 := Link(g, Scorer, SuccessLabel, GoalProposer);
    assert SuccessorsOf(g2, Scorer) == map[SuccessLabel := GoalProposer];
  }

  /** `g` sends every label a reachable node may return to a reachable
      node. */
  ghost predicate Closed(g: Graph<ForgeNode>, nVariants: int) {
    forall n, a :: Reachable(nVariants, n) && MayReturn(n, a) ==>
      a in SuccessorsOf(g, n) && Reachable(nVariants, SuccessorsOf(g, n)[a])
  }

  /** With at least one builder the forge graph is closed. */
  lemma WiringClosed(nVariants: int)
    requires nVariants > 0
    ensures Closed(Wiring(nVariants), nVariants)
  {
    WiringShape(nVariants);
  }

  /** The labels each node's post can return: the proposer, the mutation
      engine and a builder return "default"; the harness and the scorer
      return "success" or "fail". */
  predicate MayReturn(n: ForgeNode, a: Label) {
    match n
    case TestHarness => a == SuccessLabel || a == FailLabel
    case Scorer => a == SuccessLabel || a == FailLabel
    case _ => a == DefaultLabel
  }

  /** The nodes a walk from the goal proposer can reach. */
  predicate Reachable(nVariants: int, n: ForgeNode) {
    n.GoalProposer? || n.MutationEngine? || n.TestHarness? || n.Scorer?
    || (n.Builder? && n.i == nVariants - 1)
  }

  /** With at least one builder, every label a reachable node returns has a
      successor, so one Flow run never completes normally: it ends only
      when a node raises (or, in the model, when the fuel runs out). */
  lemma {:induction false} ForgeWalkNeverEnds(nVariants: int, act: (ForgeNode, nat) -> Outcome, current: ForgeNode, k: nat, fuel: nat)
    requires nVariants > 0 && Reachable(nVariants, current)
    requires forall n, j :: act(n, j).Action? ==> MayReturn(n, act(n, j).action)
    ensures WalkFrom(Wiring(nVariants), act, current, k, fuel).end != Ended
    decreases fuel
  {
    WiringClosed(nVariants);
    ClosedWalkNeverEnds(Wiring(nVariants), nVariants, act, current, k, fuel);
  }

  lemma {:induction false} ClosedWalkNeverEnds(g: Graph<ForgeNode>, nVariants: int, act: (ForgeNode, nat) -> Outcome,
                                               current: ForgeNode, k: nat, fuel: nat)
    requires Closed(g, nVariants) && Reachable(nVariants, current)
    requires forall n, j :: act(n, j).Action? ==> MayReturn(n, act(n, j).action)
    ensures WalkFrom(g, act, current, k, fuel).end != Ended
    decreases fuel
  {
    if fuel > 0 {
      var o := act(current, k);
      if o.Action? {
        assert MayReturn(current, o.action);
        ClosedWalkNeverEnds(g, nVariants, act, SuccessorsOf(g, current)[o.action], k + 1, fuel - 1);
      }
    }
  }

  /** With no builders the mutation engine has no successor: a Flow run
      whose first two nodes return ends right after the mutation engine. */
  lemma NoVariantsEndAtMutation(nVariants: int, act: (ForgeNode, nat) -> Outcome, fuel: nat)
    requires nVariants <= 0 && fuel >= 2
    requires act(GoalProposer, 0) == Action(DefaultLabel) && act(MutationEngine, 1) == Action(DefaultLabel)
    ensures WalkFrom(Wiring(nVariants), act, GoalProposer, 0, fuel)
      == Walk([GoalProposer, MutationEngine], [DefaultLabel, DefaultLabel], Ended)
  {
    WiringShape(nVariants);
  }

  // ---------------------------------------------------------------------
  // run_forge
  // ---------------------------------------------------------------------

  /** The values of the shared store that matter to the loop: the
      registry object, a number, or anything else. */
  datatype Value = RegistryObject | Number(x: real) | Other(tag: string)

  type Store = map<string, Value>

  /** `shared.setdefault(key, v)`. */
  function SetDefault(s: Store, key: string, v: Value): (r: Store)
    ensures key in r
    ensures key in s ==> r == s
    ensures key !in s ==> r[key] == v && r.Keys == s.Keys + {key}
    ensures forall k :: k in s ==> k in r && r[k] == s[k]
  {
    if key in s then s else s[key := v]
  }

  /** The two defaults `run_forge` adds before its loop. */
  function WithDefaults(s: Store, scoreThreshold: real): (r: Store)
    ensures "registry" in r && "score_threshold" in r
    ensures forall k :: k in s ==> k in r && r[k] == s[k]
    ensures "registry" !in s ==> r["registry"] == RegistryObject
    ensures "score_threshold" !in s ==> r["score_threshold"] == Number(scoreThreshold)
    ensures r.Keys == s.Keys + {"registry", "score_threshold"}
  {
    SetDefault(SetDefault(s, "registry", RegistryObject), "score_threshold", Number(scoreThreshold))
  }

  /** Why the loop stopped: the flag, the bound, an exception from a Flow
      run that `except KeyboardInterrupt` or `except Exception` caught, one
      that neither catches (a `SystemExit`, say) and that leaves
      `run_forge` without returning the store, or, in the model only, fuel
      exhausted. */
  datatype LoopEnd = StopFlag | BoundReached | Caught(exc: Exc) | Propagated(exc: Exc) | OutOfFuel

  /** The two `except` clauses around the loop. */
  function Handle(e: Exc): (end: LoopEnd)
    ensures end.Caught? <==> e.kind == Error || e.kind == Interrupt
    ensures end.Caught? || end.Propagated?
    ensures end.exc == e
  {
    match e.kind
    case Error => Caught(e)
    case Interrupt => Caught(e)
    case Exit => Propagated(e)
  }

  /** The iteration counter after the loop, the store, the actions of the
      Flow runs that returned, and why the loop stopped. */
  datatype ForgeRun = ForgeRun(iteration: int, store: Store, actions: seq<Label>, end: LoopEnd)

  /** Each pass: stop on the flag; else stop on the bound; else count the
      iteration and run the flow once. */
  function Loop(iteration: int, maxIterations: Option<int>, stopAt: nat -> bool,
                step: (nat, Store) -> (Store, Outcome), s: Store, pass: nat, fuel: nat): (r: ForgeRun)
    decreases fuel
  {
    if fuel == 0 then ForgeRun(iteration, s, [], OutOfFuel)
    else if stopAt(pass) then ForgeRun(iteration, s, [], StopFlag)
    else if maxIterations.Some? && iteration >= maxIterations.value then ForgeRun(iteration, s, [], BoundReached)
    else
      var (s', o) := step(pass, s);
      match o
      case Raised(e) => ForgeRun(iteration + 1, s', [], Handle(e))
      case Action(a) =>
        var rest := Loop(iteration + 1, maxIterations, stopAt, step, s', pass + 1, fuel - 1);
        rest.(actions := [a] + rest.actions)
  }

  /** The counter never goes down and grows by one per Flow run; it
      passes a bound only if it started above it; the bound ends the loop
      only when there is one and it has been reached; running out of fuel
      means every pass ran the flow. */
  lemma {:induction false} LoopCounts(iteration: int, maxIterations: Option<int>, stopAt: nat -> bool,
                                      step: (nat, Store) -> (Store, Outcome), s: Store, pass: nat, fuel: nat)
    ensures var r := Loop(iteration, maxIterations, stopAt, step, s, pass, fuel);
      && r.iteration >= iteration
      && r.iteration == iteration + |r.actions| + (if r.end.Caught? || r.end.Propagated? then 1 else 0)
      && (maxIterations.Some? ==> r.iteration <= (if maxIterations.value > iteration then maxIterations.value else iteration))
      && (r.end == BoundReached ==> maxIterations.Some? && r.iteration >= maxIterations.value)
      && (r.end == OutOfFuel ==> |r.actions| == fuel)
    decreases fuel
  {
    if fuel > 0 && !stopAt(pass) && !(maxIterations.Some? && iteration >= maxIterations.value) {
      var (s', o) := step(pass, s);
      if o.Action? {
        LoopCounts(iteration + 1, maxIterations, stopAt, step, s', pass + 1, fuel - 1);
      }
    }
  }

  /** `ForgeLoop.run_forge`: `iteration` is the counter the object carries
      in (it is not reset between calls), `shared` the store passed in
      (`None` for no store), and `fuel` bounds the passes. The store that
      comes back is the one the loop worked on, whatever ended it. */
  method RunForge(iteration: int, maxIterations: Option<int>, scoreThreshold: real, stopAt: nat -> bool,
                  step: (nat, Store) -> (Store, Outcome), shared: Option<Store>, fuel: nat)
    returns (r: ForgeRun)
    ensures r == Loop(iteration, maxIterations, stopAt, step, WithDefaults(shared.GetOr(map[]), scoreThreshold), 0, fuel)
    ensures r.iteration >= iteration
    ensures maxIterations.None? ==> r.end != BoundReached
  {
    var s := WithDefaults(shared.GetOr(map[]), scoreThreshold);
    r := RunLoop(iteration, maxIterations, stopAt, step, s, fuel);
    LoopCounts(iteration, maxIterations, stopAt, step, s, 0, fuel);
  }

  /** The `while True` loop of `run_forge`, on the store after the
      defaults are set. */
  method RunLoop(iteration: int, maxIterations: Option<int>, stopAt: nat -> bool,
                 step: (nat, Store) -> (Store, Outcome), s0: Store, fuel: nat)
    returns (r: ForgeRun)
    ensures r == Loop(iteration, maxIterations, stopAt, step, s0, 0, fuel)
  {
    ghost var whole := Loop(iteration, maxIterations, stopAt, step, s0, 0, fuel);
    var s := s0;
    var it := iteration;
    var actions: seq<Label> := [];
    var pass: nat := 0;
    while pass < fuel
      invariant pass <= fuel
      invariant var rest := Loop(it, maxIterations, stopAt, step, s, pass, fuel - pass);
        whole == rest.(actions := actions + rest.actions)
    {
      if stopAt(pass) {
        assert actions + [] == actions;
        return ForgeRun(it, s, actions, StopFlag);
      }
      if maxIterations.Some? && it >= maxIterations.value {
        assert actions + [] == actions;
        return ForgeRun(it, s, actions, BoundReached);
      }
      it := it + 1;
      var next := step(pass, s);
      s := next.0;
      if next.1.Raised? {
        assert actions + [] == actions;
        return ForgeRun(it, s, actions, Handle(next.1.exc));
      }
      ghost var rest := Loop(it, maxIterations, stopAt, step, s, pass + 1, fuel - pass - 1);
      assert actions + ([next.1.action] + rest.actions) == (actions + [next.1.action]) + rest.actions;
      actions := actions + [next.1.action];
      pass := pass + 1;
    }
    assert actions + [] == actions;
    r := ForgeRun(it, s, actions, OutOfFuel);
  }

  /** A flag present at the start stops the loop before anything runs,
      even when the bound would also stop it. */
  lemma StopFlagChecksFirst(iteration: int, maxIterations: Option<int>, stopAt: nat -> bool,
                            step: (nat, Store) -> (Store, Outcome), s: Store, fuel: nat)
    requires fuel > 0 && stopAt(0)
    ensures Loop(iteration, maxIterations, stopAt, step, s, 0, fuel) == ForgeRun(iteration, s, [], StopFlag)
  {
  }

  /** Without a bound and without the flag, only an exception ends the
      loop: every Flow run that returns is followed by another one. */
  lemma {:induction false} UnboundedRunsUntilCaught(iteration: int, stopAt: nat -> bool,
                            step: (nat, Store) -> (Store, Outcome), s: Store, pass: nat, fuel: nat)
    requires forall p :: pass <= p ==> !stopAt(p)
    ensures var r := Loop(iteration, None, stopAt, step, s, pass, fuel);
      r.end.Caught? || r.end.Propagated? || r.end == OutOfFuel
    decreases fuel
  {
    if fuel > 0 {
      var (s', o) := step(pass, s);
      if o.Action? {
        UnboundedRunsUntilCaught(iteration + 1, stopAt, step, s', pass + 1, fuel - 1);
      }
    }
  }

  /** The first Flow run to raise ends the loop: a `KeyboardInterrupt` or
      an `Exception` is caught, and anything else propagates. Either way
      the counter has counted that run and the store is the one the run
      left. */
  lemma RaiseEndsLoop(iteration: int, maxIterations: Option<int>, stopAt: nat -> bool,
                      step: (nat, Store) -> (Store, Outcome), s: Store, pass: nat, fuel: nat)
    requires fuel > 0 && !stopAt(pass) && !(maxIterations.Some? && iteration >= maxIterations.value)
    requires step(pass, s).1.Raised?
    ensures var r := Loop(iteration, maxIterations, stopAt, step, s, pass, fuel);
      var e := step(pass, s).1.exc;
      && r.iteration == iteration + 1 && r.store == step(pass, s).0 && r.actions == []
      && (e.kind != Exit ==> r.end == Caught(e))
      && (e.kind == Exit ==> r.end == Propagated(e))
  {
  }

  /** With a bound `m` on a fresh counter, no flag and no exception, the
      loop runs the flow exactly `m` times (given the fuel for it). */
  lemma {:induction false} BoundedRunsExactly(iteration: int, m: int, stopAt: nat -> bool,
                            step: (nat, Store) -> (Store, Outcome), s: Store, pass: nat, fuel: nat)
    requires forall p :: pass <= p ==> !stopAt(p)
    requires forall p, t :: pass <= p ==> step(p, t).1.Action?
    requires iteration <= m && fuel > m - iteration
    ensures var r := Loop(iteration, Some(m), stopAt, step, s, pass, fuel);
      r.end == BoundReached && r.iteration == m && |r.actions| == m - iteration
    decreases m - iteration
  {
    if iteration < m {
      var (s', o) := step(pass, s);
      BoundedRunsExactly(iteration + 1, m, stopAt, step, s', pass + 1, fuel - 1);
    }
  }
}
