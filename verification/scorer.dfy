/** The scorer node: seven component scores computed from the harness's
    test results and the registry, their weighted total, and the threshold
    verdict. `math.tanh` is a parameter known only to map [0, ∞) into
    [0, 1) and 0 to 0. */
module Scoring {
  import opened Base
  import opened Harness
  import opened Registry

  datatype Scores = Scores(
    syntax: real,
    execution: real,
    constraints: real,
    lineCount: real,
    mainBlock: real,
    importReuse: real,
    lineage: real)

  /** The weights dictionary, as its items in order. */
  type Weights = seq<(string, real)>

  const DefaultWeights: Weights := [
    ("syntax", 0.15), ("execution", 0.25), ("constraints", 0.15), ("line_count", 0.15),
    ("main_block", 0.10), ("import_reuse", 0.10), ("lineage", 0.10)]

  /** `weights or {...defaults...}`: an empty dictionary means the defaults. */
  function EffectiveWeights(w: Weights): (r: Weights)
    ensures w != [] ==> r == w
    ensures w == [] ==> r == DefaultWeights
  {
    if w == [] then DefaultWeights else w
  }

  ghost predicate TanhBounded(tanh: real -> real) {
    tanh(0.0) == 0.0 && forall x: real :: 0.0 <= x ==> 0.0 <= tanh(x) < 1.0
  }

  /** `math.tanh` is strictly increasing; only the lemmas that compare
      lineage scores ask for it. */
  ghost predicate TanhIncreasing(tanh: real -> real) {
    forall x: real, y: real :: 0.0 <= x < y ==> tanh(x) < tanh(y)
  }

  predicate InUnit(x: real) { 0.0 <= x <= 1.0 }

  predicate AllInUnit(s: Scores) {
    InUnit(s.syntax) && InUnit(s.execution) && InUnit(s.constraints) && InUnit(s.lineCount)
    && InUnit(s.mainBlock) && InUnit(s.importReuse) && InUnit(s.lineage)
  }

  // ---------------------------------------------------------------------
  // component scores
  // ---------------------------------------------------------------------

  function Indicator(b: bool): (r: real)
    ensures r == 1.0 <==> b
    ensures r == 0.0 <==> !b
  {
    if b then 1.0 else 0.0
  }

  /** The number of constraint checks present, and of those that passed. */
  function CheckCount(c: Checks): (n: nat)
    ensures n <= 3
  {
    (if c.lineCount.Some? then 1 else 0) + (if c.imports.Some? then 1 else 0) + (if c.output.Some? then 1 else 0)
  }

  predicate AllPassed(c: Checks) {
    (c.lineCount.Some? ==> c.lineCount.value) && (c.imports.Some? ==> c.imports.value)
    && (c.output.Some? ==> c.output.value)
  }

  function PassedCount(c: Checks): (n: nat)
    ensures n <= CheckCount(c)
    ensures n == CheckCount(c) <==> AllPassed(c)
  {
    (if c.lineCount == Some(true) then 1 else 0) + (if c.imports == Some(true) then 1 else 0)
    + (if c.output == Some(true) then 1 else 0)
  }

  /** The constraints score: the fraction of checks passed, or 1.0 when
      there are none. */
  function ConstraintScore(c: Checks): (r: real)
    ensures InUnit(r)
    ensures r == 1.0 <==> PassedCount(c) == CheckCount(c)
    ensures CheckCount(c) == 0 ==> r == 1.0
    ensures CheckCount(c) > 0 ==> r * (CheckCount(c) as real) == PassedCount(c) as real
    ensures r == 0.0 <==> CheckCount(c) > 0 && PassedCount(c) == 0
  {
    if CheckCount(c) == 0 then 1.0
    else (PassedCount(c) as real) / (CheckCount(c) as real)
  }

  /** The line-count score table. */
  function LineScore(lines: int): (r: real)
    ensures InUnit(r)
    ensures lines <= 50 ==> r == 1.0
    ensures 50 < lines <= 100 ==> r == 0.9
    ensures 100 < lines <= 150 ==> r == 0.7
    ensures 150 < lines <= 200 ==> r == 0.5
    ensures lines > 200 ==> r == 0.0
  {
    if lines <= 50 then 1.0
    else if lines <= 100 then 0.9
    else if lines <= 150 then 0.7
    else if lines <= 200 then 0.5
    else 0.0
  }

  /** Longer code never scores better on line count. */
  lemma LineScoreMonotone(a: int, b: int)
    requires a <= b
    ensures LineScore(b) <= LineScore(a)
  {
  }

  /** `imp in all_imports` for each of our imports, counted with repeats. */
  function CountIn(imports: seq<string>, pool: set<string>): (n: nat)
    ensures n <= |imports|
    ensures n == |imports| <==> forall i :: 0 <= i < |imports| ==> imports[i] in pool
    ensures n == 0 <==> forall i :: 0 <= i < |imports| ==> imports[i] !in pool
  {
    if imports == [] then 0
    else (if imports[0] in pool then 1 else 0) + CountIn(imports[1..], pool)
  }

  /** The union of the imports of the first five similar builds. */
  function PoolOf(builds: seq<Summary>): (r: set<string>)
    ensures forall b, x :: b in builds && x in b.imports ==> x in r
  {
    if builds == [] then {} else SetOf(builds[0].imports) + PoolOf(builds[1..])
  }

  /** The fraction of `imports` found in `pool`. */
  function Overlap(imports: seq<string>, pool: set<string>): (r: real)
    requires imports != []
    ensures InUnit(r)
    ensures Scaled(r, |imports|) == CountIn(imports, pool) as real
    ensures r == 1.0 <==> forall i :: 0 <= i < |imports| ==> imports[i] in pool
    ensures r == 0.0 <==> forall i :: 0 <= i < |imports| ==> imports[i] !in pool
  {
    var n := CountIn(imports, pool);
    assert n == |imports| <==> forall i :: 0 <= i < |imports| ==> imports[i] in pool;
    assert n == 0 <==> forall i :: 0 <= i < |imports| ==> imports[i] !in pool;
    Share(n, |imports|)
  }

  /** `r * m`. */
  function Scaled(r: real, m: nat): real {
    r * (m as real)
  }

  /** `n / m` as a real: the share `n` is of a positive `m`. */
  function Share(n: nat, m: nat): (r: real)
    requires n <= m && 0 < m
    ensures InUnit(r) && Scaled(r, m) == n as real
    ensures r == 1.0 <==> n == m
    ensures r == 0.0 <==> n == 0
  {
    Fraction(n as real, m as real);
    (n as real) / (m as real)
  }

  /** What a share `n / m` of a positive `m` is. */
  lemma Fraction(n: real, m: real)
    requires 0.0 <= n <= m && 0.0 < m
    ensures InUnit(n / m) && (n / m) * m == n
    ensures n / m == 1.0 <==> n == m
    ensures n / m == 0.0 <==> n == 0.0
  {
  }

  /** The imports of the (at most five) most similar builds. */
  function SimilarPool(idx: Index, imports: seq<string>): (pool: set<string>)
    ensures forall i, x :: 0 <= i < |QueryByImports(idx, imports)| && i < 5 && x in QueryByImports(idx, imports)[i].imports ==> x in pool
  {
    var similar := QueryByImports(idx, imports);
    var top := TakePy(similar, 5);
    assert forall i :: 0 <= i < |similar| && i < 5 ==> similar[i] in top by {
      forall i | 0 <= i < |similar| && i < 5 ensures similar[i] in top {
        assert top[i] == similar[i];
      }
    }
    PoolOf(top)
  }

  /** The import-reuse score. */
  function ImportReuse(registry: Option<Index>, imports: seq<string>): (r: real)
    ensures InUnit(r)
    ensures registry.None? || imports == [] ==> r == 0.0
    ensures registry.Some? && imports != [] && SimilarPool(registry.value, imports) != {} ==>
      r == Overlap(imports, SimilarPool(registry.value, imports))
    ensures registry.Some? && imports != [] && SimilarPool(registry.value, imports) == {} ==> r == 0.0
  {
    if registry.None? || imports == [] then 0.0
    else
      var pool := SimilarPool(registry.value, imports);
      if pool == {} then 0.0 else Overlap(imports, pool)
  }

  /** The lineage score; `None` when walking the ancestry does not end
      within `fuel` steps. */
  function LineageScore(registry: Option<Index>, parentId: Option<Id>, tanh: real -> real, fuel: nat): (r: Option<real>)
    requires TanhBounded(tanh)
    ensures r.Some? ==> 0.0 <= r.value < 1.0
    ensures registry.None? || !Truthy(parentId) ==> r == Some(0.0)
    ensures registry.Some? && Truthy(parentId) ==>
      (r.Some? <==> LineageDepth(registry.value, parentId.value, fuel).Some?)
    ensures registry.Some? && Truthy(parentId) && r.Some? ==>
      r.value == DepthScore(tanh, LineageDepth(registry.value, parentId.value, fuel).value)
  {
    if registry.None? || !Truthy(parentId) then Some(0.0)
    else
      match LineageDepth(registry.value, parentId.value, fuel)
      case None => None
      case Some(depth) => Some(DepthScore(tanh, depth))
  }

  /** `math.tanh(depth / 5.0)`. */
  function DepthScore(tanh: real -> real, depth: nat): real {
    tanh((depth as real) / 5.0)
  }

  /** A parent with a deeper ancestry scores strictly higher on lineage,
      and two parents of equal depth score the same. */
  lemma LineageScoreOrdersDepth(idx: Index, a: Option<Id>, b: Option<Id>, tanh: real -> real, fuel: nat)
    requires TanhBounded(tanh) && TanhIncreasing(tanh)
    requires Truthy(a) && Truthy(b)
    requires LineageScore(Some(idx), a, tanh, fuel).Some? && LineageScore(Some(idx), b, tanh, fuel).Some?
    ensures var da := LineageDepth(idx, a.value, fuel).value;
      var db := LineageDepth(idx, b.value, fuel).value;
      var sa := LineageScore(Some(idx), a, tanh, fuel).value;
      var sb := LineageScore(Some(idx), b, tanh, fuel).value;
      (sa < sb <==> da < db) && (sa == sb <==> da == db)
  {
    LineageScoreIsTanh(idx, a, tanh, fuel);
    LineageScoreIsTanh(idx, b, tanh, fuel);
    TanhOrders(tanh, LineageDepth(idx, a.value, fuel).value, LineageDepth(idx, b.value, fuel).value);
  }

  lemma LineageScoreIsTanh(idx: Index, a: Option<Id>, tanh: real -> real, fuel: nat)
    requires TanhBounded(tanh) && Truthy(a) && LineageScore(Some(idx), a, tanh, fuel).Some?
    ensures LineageDepth(idx, a.value, fuel).Some?
    ensures LineageScore(Some(idx), a, tanh, fuel).value == DepthScore(tanh, LineageDepth(idx, a.value, fuel).value)
  {
  }

  /** An increasing `tanh` orders `tanh(d / 5)` as it orders the depths. */
  lemma TanhOrders(tanh: real -> real, da: nat, db: nat)
    requires TanhIncreasing(tanh)
    ensures var sa := DepthScore(tanh, da);
      var sb := DepthScore(tanh, db);
      (sa < sb <==> da < db) && (sa == sb <==> da == db)
  {
    var xa := da as real / 5.0;
    var xb := db as real / 5.0;
    if da < db {
      assert 0.0 <= xa < xb;
    } else if db < da {
      assert 0.0 <= xb < xa;
    }
  }

  /** The lineage score is 0 exactly when the parent has no ancestors. */
  lemma LineageScoreZeroIff(idx: Index, parentId: Option<Id>, tanh: real -> real, fuel: nat)
    requires TanhBounded(tanh) && TanhIncreasing(tanh)
    requires Truthy(parentId) && LineageScore(Some(idx), parentId, tanh, fuel).Some?
    ensures LineageScore(Some(idx), parentId, tanh, fuel).value == 0.0
        <==> LineageDepth(idx, parentId.value, fuel).value == 0
  {
    var d := LineageDepth(idx, parentId.value, fuel).value;
    if d > 0 {
      assert 0.0 < d as real / 5.0;
    }
  }

  /** What the scorer reads from `shared["test_results"]`; `None` is the
      `{}` default, whose every lookup falls back. */
  function ComponentScores(
    tr: Option<TestResults>, registry: Option<Index>, parentId: Option<Id>,
    imports: seq<string>, tanh: real -> real, fuel: nat): (r: Option<Scores>)
    requires TanhBounded(tanh)
    ensures r.Some? ==> AllInUnit(r.value)
    ensures r.Some? ==> (r.value.syntax == 1.0 <==> tr.Some? && tr.value.syntaxValid)
    ensures r.Some? ==> (r.value.execution == 1.0 <==> tr.Some? && tr.value.executed && tr.value.errors == [])
    ensures r.Some? ==> (r.value.mainBlock == 1.0 <==> tr.Some? && tr.value.hasMain)
    ensures r.Some? && tr.None? ==> r.value.constraints == 1.0 && r.value.lineCount == 1.0
    ensures r.Some? && tr.Some? ==> r.value.constraints == ConstraintScore(tr.value.checks)
    ensures r.Some? && tr.Some? ==> r.value.lineCount == LineScore(tr.value.lineCount)
    ensures r.Some? ==> LineageScore(registry, parentId, tanh, fuel) == Some(r.value.lineage)
    ensures r.Some? ==> r.value.importReuse == ImportReuse(registry, imports)
    ensures r.Some? <==> LineageScore(registry, parentId, tanh, fuel).Some?
  {
    match LineageScore(registry, parentId, tanh, fuel)
    case None => None
    case Some(lineage) =>
      var syntax := Indicator(tr.Some? && tr.value.syntaxValid);
      var execution := Indicator(tr.Some? && tr.value.executed && tr.value.errors == []);
      var constraints := if tr.Some? then ConstraintScore(tr.value.checks) else 1.0;
      var lines := if tr.Some? then LineScore(tr.value.lineCount) else LineScore(0);
      var main := Indicator(tr.Some? && tr.value.hasMain);
      Some(Scores(syntax, execution, constraints, lines, main, ImportReuse(registry, imports), lineage))
  }

  // ---------------------------------------------------------------------
  // weighted total
  // ---------------------------------------------------------------------

  /** `scores.get(key, 0.0)`. */
  function Component(s: Scores, key: string): real {
    match key
    case "syntax" => s.syntax
    case "execution" => s.execution
    case "constraints" => s.constraints
    case "line_count" => s.lineCount
    case "main_block" => s.mainBlock
    case "import_reuse" => s.importReuse
    case "lineage" => s.lineage
    case _ => 0.0
  }

  /** `sum(scores.get(key, 0.0) * weight for key, weight in weights)`. */
  function Total(s: Scores, ws: Weights): real {
    if ws == [] then 0.0 else Component(s, ws[0].0) * ws[0].1 + Total(s, ws[1..])
  }

  function WeightSum(ws: Weights): real {
    if ws == [] then 0.0 else ws[0].1 + WeightSum(ws[1..])
  }

  predicate NonNegative(ws: Weights) {
    forall i :: 0 <= i < |ws| ==> ws[i].1 >= 0.0
  }

  lemma ComponentInUnit(s: Scores, key: string)
    requires AllInUnit(s)
    ensures InUnit(Component(s, key))
  {
  }

  lemma ScaleInUnit(c: real, w: real)
    requires InUnit(c) && 0.0 <= w
    ensures 0.0 <= c * w <= w
  {
    assert (1.0 - c) * w >= 0.0;
  }

  /** With non-negative weights and components in [0, 1], the total lies
      between 0 and the sum of the weights. */
  lemma {:induction false} TotalBounded(s: Scores, ws: Weights)
    requires AllInUnit(s) && NonNegative(ws)
    ensures 0.0 <= Total(s, ws) <= WeightSum(ws)
  {
    if ws != [] {
      NonNegativeTail(ws);
      TotalBounded(s, ws[1..]);
      ComponentInUnit(s, ws[0].0);
      ScaleInUnit(Component(s, ws[0].0), ws[0].1);
      assert 0.0 <= Component(s, ws[0].0) * ws[0].1 <= ws[0].1;
      assert 0.0 <= Total(s, ws[1..]) <= WeightSum(ws[1..]);
      AddBounds(Component(s, ws[0].0) * ws[0].1, ws[0].1, Total(s, ws[1..]), WeightSum(ws[1..]));
    }
  }

  lemma AddBounds(a: real, wa: real, b: real, wb: real)
    requires 0.0 <= a <= wa && 0.0 <= b <= wb
    ensures 0.0 <= a + b <= wa + wb
  {
  }

  lemma NonNegativeTail(ws: Weights)
    requires ws != [] && NonNegative(ws)
    ensures ws[0].1 >= 0.0 && NonNegative(ws[1..])
  {
    assert forall i :: 0 <= i < |ws[1..]| ==> ws[1..][i] == ws[i + 1];
  }

  /** The default weights are non-negative and sum to 1. */
  lemma DefaultWeightsSumToOne()
    ensures NonNegative(DefaultWeights) && WeightSum(DefaultWeights) == 1.0
  {
    var w := DefaultWeights;
    assert w[1..][1..][1..][1..][1..][1..][1..] == [];
  }

  /** With the default weights, the total is a score in [0, 1]. */
  lemma DefaultTotalInUnit(s: Scores)
    requires AllInUnit(s)
    ensures InUnit(Total(s, EffectiveWeights([])))
  {
    DefaultWeightsSumToOne();
    TotalBounded(s, DefaultWeights);
  }

  /** The total under the default weights, written out. */
  lemma DefaultTotal(s: Scores)
    ensures Total(s, DefaultWeights)
         == 0.15 * s.syntax + 0.25 * s.execution + 0.15 * s.constraints + 0.15 * s.lineCount
          + 0.10 * s.mainBlock + 0.10 * s.importReuse + 0.10 * s.lineage
  {
    var w := DefaultWeights;
    assert Total(s, w[6..]) == 0.10 * s.lineage + Total(s, w[7..]);
    assert Total(s, w[5..]) == 0.10 * s.importReuse + Total(s, w[6..]);
    assert Total(s, w[4..]) == 0.10 * s.mainBlock + Total(s, w[5..]);
    assert Total(s, w[3..]) == 0.15 * s.lineCount + Total(s, w[4..]);
    assert Total(s, w[2..]) == 0.15 * s.constraints + Total(s, w[3..]);
    assert Total(s, w[1..]) == 0.25 * s.execution + Total(s, w[2..]);
    assert Total(s, w) == 0.15 * s.syntax + Total(s, w[1..]);
  }

  // ---------------------------------------------------------------------
  // exec and post
  // ---------------------------------------------------------------------

  datatype ScoreResult = ScoreResult(individual: Scores, total: real)

  /** `Scorer.exec`. */
  function Exec(
    weights: Weights, tr: Option<TestResults>, registry: Option<Index>, parentId: Option<Id>,
    imports: seq<string>, tanh: real -> real, fuel: nat): (r: Option<ScoreResult>)
    requires TanhBounded(tanh)
    ensures r.Some? <==> ComponentScores(tr, registry, parentId, imports, tanh, fuel).Some?
    ensures r.Some? ==> r.value.individual == ComponentScores(tr, registry, parentId, imports, tanh, fuel).value
    ensures r.Some? ==> r.value.total == Total(r.value.individual, EffectiveWeights(weights))
    ensures r.Some? && weights == [] ==> InUnit(r.value.total)
  {
    match ComponentScores(tr, registry, parentId, imports, tanh, fuel)
    case None => None
    case Some(s) =>
      var total := Total(s, EffectiveWeights(weights));
      DefaultTotalInUnit(s);
      Some(ScoreResult(s, total))
  }

  const DefaultThreshold := 0.7

  /** What `Scorer.post` writes into the shared store, and its action. */
  datatype ScorerPost = ScorerPost(score: real, individual: Scores, action: Label)

  /** `Scorer.post`; `threshold` is `shared["score_threshold"]` if present. */
  function Post(res: ScoreResult, threshold: Option<real>): (p: ScorerPost)
    ensures p.score == res.total && p.individual == res.individual
    ensures p.action == SuccessLabel <==> res.total >= threshold.GetOr(DefaultThreshold)
    ensures p.action == SuccessLabel || p.action == FailLabel
  {
    var t := threshold.GetOr(DefaultThreshold);
    ScorerPost(res.total, res.individual, if res.total >= t then SuccessLabel else FailLabel)
  }

  // ---------------------------------------------------------------------
  // harness and scorer together
  // ---------------------------------------------------------------------

  /** Code that the harness got to run, and that let nothing escape the
      harness, always carries an error entry (the split of an empty standard
      error is `[""]`), so its execution score is 0, never 1. */
  lemma ExecutedCodeScoresNoExecution(
    code: string, d: Directives.Directive, imports: seq<string>, hasMain: bool, run: Execution,
    registry: Option<Index>, parentId: Option<Id>, tanh: real -> real, fuel: nat)
    requires TanhBounded(tanh) && !Escapes(run)
    requires ComponentScores(Some(Harness.Exec(code, d, Parsed(imports, hasMain), run).results), registry, parentId, imports, tanh, fuel).Some?
    ensures ComponentScores(Some(Harness.Exec(code, d, Parsed(imports, hasMain), run).results), registry, parentId, imports, tanh, fuel).value.execution == 0.0
  {
  }

  /** Under the default weights, code that ran scores at most 0.75. */
  lemma ExecutedCodeTotalAtMost(
    code: string, d: Directives.Directive, imports: seq<string>, hasMain: bool, run: Execution,
    registry: Option<Index>, parentId: Option<Id>, tanh: real -> real, fuel: nat)
    requires TanhBounded(tanh) && !Escapes(run)
    requires Exec([], Some(Harness.Exec(code, d, Parsed(imports, hasMain), run).results), registry, parentId, imports, tanh, fuel).Some?
    ensures Exec([], Some(Harness.Exec(code, d, Parsed(imports, hasMain), run).results), registry, parentId, imports, tanh, fuel).value.total <= 0.75
  {
    var s := ComponentScores(Some(Harness.Exec(code, d, Parsed(imports, hasMain), run).results), registry, parentId, imports, tanh, fuel).value;
    DefaultTotal(s);
  }

  /** A build with a syntax error never passes scoring at the default
      threshold: with the harness's results (and its empty import list) the
      default-weighted total stays below 0.4. */
  lemma SyntaxErrorFailsScoring(
    code: string, d: Directives.Directive, msg: string, run: Execution,
    registry: Option<Index>, parentId: Option<Id>, tanh: real -> real, fuel: nat)
    requires TanhBounded(tanh)
    requires Exec([], Some(Harness.Exec(code, d, SyntaxError(msg), run).results), registry, parentId, [], tanh, fuel).Some?
    ensures var res := Exec([], Some(Harness.Exec(code, d, SyntaxError(msg), run).results), registry, parentId, [], tanh, fuel).value;
      res.total < 0.4 && Post(res, None).action == FailLabel
  {
    var s := ComponentScores(Some(Harness.Exec(code, d, SyntaxError(msg), run).results), registry, parentId, [], tanh, fuel).value;
    DefaultTotal(s);
  }
}
