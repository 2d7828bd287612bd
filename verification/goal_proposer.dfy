/** The goal proposer: a cold-start task when the registry shows no recent
    task, otherwise a task from one of four templates and a lightly varied
    default directive; plus the set of reinforced directives. */
module GoalProposal {
  import opened Base
  import opened Directives
  import opened Random

  /** The registry as the proposer sees it: `isinstance(registry, dict)`
      fails for the registry object, and each build is a dictionary that
      may carry a "build_task". */
  datatype BuildView = OtherValue | BuildDict(buildTask: Option<string>)
  datatype RegistryView = NotADict | RegistryDict(builds: seq<BuildView>)

  const ColdStartTask := "Build a Node that logs to console"

  const Actions: seq<string> := ["summarize", "extract metadata", "validate", "monitor", "convert", "log"]
  const DataTypes: seq<string> := ["JSON", "images", "URLs", "PDFs", "environment variables"]
  const Sources: seq<string> := ["a remote API", "a local directory", "system memory", "stdin"]
  const Components: seq<string> := ["LLM call nodes", "batch flows", "agent nodes"]
  const Functions: seq<string> := ["retrieval", "generation", "postprocessing", "evaluation"]
  const LineChoices: seq<int> := [150, 175, 200]
  const ExtraCriteria: seq<string> := ["efficiency", "clarity", "robustness", "testability"]

  /** The fixed text each template starts with. */
  const TemplatePrefixes: seq<string> := [
    "Build a Node that performs ", "Forge an async-compatible Node to ",
    "Construct a test harness for ", "Design a Flow to coordinate "]

  datatype Fill = Fill(action: string, data: string, source: string, component: string, function1: string, function2: string)

  /** The build task was made from one of the templates. */
  predicate FromTemplate(task: string) {
    exists k :: 0 <= k < 4 && TemplatePrefixes[k] <= task
  }

  /** `goal_templates[k].format(...)`. */
  function Instantiate(k: nat, f: Fill): (task: string)
    requires k < 4
    ensures TemplatePrefixes[k] <= task
    ensures FromTemplate(task)
  {
    match k
    case 0 => TemplatePrefixes[0] + f.action + " on " + f.data
    case 1 => TemplatePrefixes[1] + f.action + " from " + f.source
    case 2 => TemplatePrefixes[2] + f.component
    case _ => TemplatePrefixes[3] + f.function1 + " and " + f.function2
  }

  /** The tasks of the last ten builds that carry one. */
  function RecentTasks(registry: RegistryView): (tasks: seq<string>)
    ensures registry.NotADict? ==> tasks == []
    ensures registry.RegistryDict? ==> |tasks| <= 10
    ensures registry.RegistryDict? ==>
      (tasks == [] <==> forall b :: b in LastPy(registry.builds, 10) ==> !CarriesTask(b))
  {
    match registry
    case NotADict => []
    case RegistryDict(builds) => TasksOf(LastPy(builds, 10))
  }

  /** `isinstance(build, dict) and "build_task" in build`. */
  predicate CarriesTask(b: BuildView) {
    b.BuildDict? && b.buildTask.Some?
  }

  function TasksOf(builds: seq<BuildView>): (tasks: seq<string>)
    ensures |tasks| <= |builds|
    ensures tasks == [] <==> forall b :: b in builds ==> !CarriesTask(b)
  {
    if builds == [] then []
    else
      var rest := TasksOf(builds[1..]);
      assert forall i :: 1 <= i < |builds| ==> builds[i] == builds[1..][i - 1];
      if CarriesTask(builds[0]) then [builds[0].buildTask.value] + rest else rest
  }

  /** The six `random.choice` arguments of `format`, drawn in order. */
  function DrawFill(g: Rng): (r: (Fill, Rng))
    requires Valid(g)
    ensures Valid(r.1)
    ensures r.0.action in Actions && r.0.data in DataTypes && r.0.source in Sources
    ensures r.0.component in Components && r.0.function1 in Functions && r.0.function2 in Functions
  {
    var (a, g1) := Choice(g, Actions);
    var (d, g2) := Choice(g1, DataTypes);
    var (s, g3) := Choice(g2, Sources);
    var (c, g4) := Choice(g3, Components);
    var (f1, g5) := Choice(g4, Functions);
    var (f2, g6) := Choice(g5, Functions);
    (Fill(a, d, s, c, f1, f2), g6)
  }

  /** The default directive with a line budget from `LineChoices` and the
      default criteria followed by at most one extra. */
  predicate IsVariation(d: Directive) {
    d.goal == Some(DefaultGoal)
    && d.constraints.Some? && d.rewardCriteria.Some?
    && var c := d.constraints.value;
    c == DefaultDirective.constraints.value.(maxLinesPerFile := c.maxLinesPerFile)
    && c.maxLinesPerFile.Some? && c.maxLinesPerFile.value in LineChoices
    && var cr := d.rewardCriteria.value;
    cr == DefaultCriteria || (|cr| == 4 && cr[..3] == DefaultCriteria && cr[3] in ExtraCriteria)
  }

  /** The directive variation: the default directive with, perhaps, a new
      line budget and one extra reward criterion. */
  function VaryDirective(g: Rng): (r: (Directive, Rng))
    requires Valid(g)
    ensures Valid(r.1)
    ensures IsVariation(r.0)
  {
    var d := DefaultDirective;
    var (u, g1) := Next(g);
    var (lines, g2) := if u < 0.3 then Choice(g1, LineChoices) else (200, g1);
    var (u2, g3) := Next(g2);
    var (criteria, g4) :=
      if u2 < 0.5 then
        var (x, g5) := Choice(g3, ExtraCriteria);
        (DefaultCriteria + [x], g5)
      else (DefaultCriteria, g3);
    (d.(constraints := Some(d.constraints.value.(maxLinesPerFile := Some(lines))), rewardCriteria := Some(criteria)), g4)
  }

  /** The reinforced directives: `str(directive)` keys, modelled by the
      directive values themselves. */
  type Reinforced = set<Directive>

  /** `reinforce`. */
  function Reinforce(s: Reinforced, d: Directive): (r: Reinforced)
    ensures d in r && s <= r && r - {d} == s - {d}
  {
    s + {d}
  }

  /** `degrade`: removal if present, nothing otherwise. */
  function Degrade(s: Reinforced, d: Directive): (r: Reinforced)
    ensures d !in r && r <= s && s - {d} == r
    ensures d !in s ==> r == s
  {
    if d in s then s - {d} else s
  }

  /** Degrading undoes reinforcing: afterwards the directive is absent and
      every other one is as it was. */
  lemma DegradeAfterReinforce(s: Reinforced, d: Directive)
    ensures Degrade(Reinforce(s, d), d) == s - {d}
    ensures d !in s ==> Degrade(Reinforce(s, d), d) == s
  {
  }

  /** `feedback == "reinforce" and last_directive`. */
  predicate ReinforceRequested(feedback: Option<string>, lastDirective: Option<Directive>) {
    feedback == Some("reinforce") && lastDirective.Some? && IsTruthy(lastDirective.value)
  }

  datatype Proposal = Proposal(task: string, directive: Directive, reinforced: Reinforced)

  /** `GoalProposer.exec`. */
  function Exec(registry: RegistryView, feedback: Option<string>, lastDirective: Option<Directive>,
                reinforced: Reinforced, g: Rng): (r: (Proposal, Rng))
    requires Valid(g)
    ensures Valid(r.1)
    ensures ReinforceRequested(feedback, lastDirective) ==>
      r.0.reinforced == Reinforce(reinforced, lastDirective.value)
    ensures !ReinforceRequested(feedback, lastDirective) ==> r.0.reinforced == reinforced
    ensures RecentTasks(registry) == [] ==>
      r.0.task == ColdStartTask && r.0.directive == DefaultDirective && r.1 == g
    ensures RecentTasks(registry) != [] ==> FromTemplate(r.0.task) && IsVariation(r.0.directive)
  {
    var reinforced' :=
      if ReinforceRequested(feedback, lastDirective)
      then Reinforce(reinforced, lastDirective.value) else reinforced;
    if RecentTasks(registry) == [] then
      (Proposal(ColdStartTask, DefaultDirective, reinforced'), g)
    else
      var (k, g1) := Below(g, 4);
      var (fill, g2) := DrawFill(g1);
      var task := Instantiate(k, fill);
      var (directive, g3) := VaryDirective(g2);
      (Proposal(task, directive, reinforced'), g3)
  }

  /** In the forge loop the shared "registry" is the registry object, not a
      dictionary, so the proposer always cold-starts. */
  lemma ObjectRegistryColdStarts(feedback: Option<string>, lastDirective: Option<Directive>, reinforced: Reinforced, g: Rng)
    requires Valid(g)
    ensures var (p, _) := Exec(NotADict, feedback, lastDirective, reinforced, g);
      p.task == ColdStartTask && p.directive == DefaultDirective
  {
  }

  /** What `GoalProposer.post` writes into the shared store, and its
      action. */
  datatype ProposerPost = ProposerPost(buildTask: string, directive: Directive, action: Label)

  /** `GoalProposer.post`. */
  function Post(p: Proposal): (r: ProposerPost)
    ensures r.buildTask == p.task && r.directive == p.directive && r.action == DefaultLabel
  {
    ProposerPost(p.task, p.directive, DefaultLabel)
  }
}
