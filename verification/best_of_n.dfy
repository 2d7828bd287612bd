/** The best-of-N builder: `n` rounds of mutate, build and test, each of
    which may raise or produce no code, followed by the selection of the
    first highest-scoring variant. The mutation engine, the flow builder
    and the test harness are oracles indexed by the round. */
module BestOfN {
  import opened Base
  import opened Nodes
  import opened Directives
  import opened Harness

  /** What the flow builder left in the variant's shared store. */
  datatype Built = Built(code: Option<string>, className: Option<string>, filePath: Option<string>)

  /** What the test harness left in its copy of the store. */
  datatype Tested = Tested(testResults: Option<TestResults>, score: Option<real>)

  datatype Oracles = Oracles(
    mutate: nat -> Attempt<(string, Directive)>,
    build: (nat, string, Directive) -> Attempt<Built>,
    test: (nat, string, Directive, Built) -> Attempt<Tested>)

  datatype Variant = Variant(
    buildTask: string,
    directive: Directive,
    code: string,
    testResults: Option<TestResults>,
    score: real,
    className: string,
    filePath: string,
    variantIdx: nat)

  /** Whether round `i` got through mutation, building (with code written)
      and testing without raising. */
  predicate RoundSucceeds(o: Oracles, i: nat) {
    o.mutate(i).Returned?
    && var (task, d) := o.mutate(i).value;
    o.build(i, task, d).Returned?
    && o.build(i, task, d).value.code.Some?
    && o.test(i, task, d, o.build(i, task, d).value).Returned?
  }

  /** The body of the `for i in range(self.n)` loop: the variant round `i`
      appends, if any. */
  function Round(o: Oracles, i: nat): (r: Option<Variant>)
    ensures r.Some? <==> RoundSucceeds(o, i)
    ensures r.Some? ==> r.value.variantIdx == i
    ensures r.Some? ==> (r.value.buildTask, r.value.directive) == o.mutate(i).value
    ensures r.Some? ==>
      var (task, d) := o.mutate(i).value;
      var built := o.build(i, task, d).value;
      var tested := o.test(i, task, d, built).value;
      && r.value.code == built.code.value
      && r.value.className == built.className.GetOr("")
      && r.value.filePath == built.filePath.GetOr("")
      && r.value.testResults == tested.testResults
      && r.value.score == tested.score.GetOr(0.0)
  {
    match o.mutate(i)
    case Failed(_) => None
    case Returned((task, d)) =>
      match o.build(i, task, d)
      case Failed(_) => None
      case Returned(built) =>
        if built.code.None? then None
        else
          match o.test(i, task, d, built)
          case Failed(_) => None
          case Returned(tested) =>
            Some(Variant(task, d, built.code.value, tested.testResults, tested.score.GetOr(0.0),
                         built.className.GetOr(""), built.filePath.GetOr(""), i))
  }

  /** What round `i` lets out of the loop's `except Exception`: an
      exception from mutation, building or testing that is not an
      `Exception`. */
  function RoundEscape(o: Oracles, i: nat): (r: Option<Exc>)
    ensures r.Some? ==> !r.value.IsError() && Round(o, i).None?
    ensures r.None? && Round(o, i).None? ==>
      o.mutate(i).Failed?
      || o.build(i, o.mutate(i).value.0, o.mutate(i).value.1).Failed?
      || o.build(i, o.mutate(i).value.0, o.mutate(i).value.1).value.code.None?
      || o.test(i, o.mutate(i).value.0, o.mutate(i).value.1, o.build(i, o.mutate(i).value.0, o.mutate(i).value.1).value).Failed?
  {
    match o.mutate(i)
    case Failed(e) => Escaping(e)
    case Returned((task, d)) =>
      match o.build(i, task, d)
      case Failed(e) => Escaping(e)
      case Returned(built) =>
        if built.code.None? then None
        else
          match o.test(i, task, d, built)
          case Failed(e) => Escaping(e)
          case Returned(_) => None
  }

  /** The exception, unless `except Exception` catches it. */
  function Escaping(e: Exc): (r: Option<Exc>)
    ensures r.Some? <==> !e.IsError()
    ensures r.Some? ==> r.value == e
  {
    if e.IsError() then None else Some(e)
  }

  /** The variants of rounds `0 .. k-1`, in order. */
  function Collected(o: Oracles, k: nat): seq<Variant> {
    if k == 0 then []
    else
      var before := Collected(o, k - 1);
      match Round(o, k - 1)
      case None => before
      case Some(v) => before + [v]
  }

  predicate IndicesIncreasing(vs: seq<Variant>) {
    forall j :: 1 <= j < |vs| ==> vs[j - 1].variantIdx < vs[j].variantIdx
  }

  /** The collected variants come from distinct rounds below `k`, in round
      order, and each is what its round produced. */
  lemma {:induction false} CollectedShape(o: Oracles, k: nat)
    ensures |Collected(o, k)| <= k
    ensures forall j :: 0 <= j < |Collected(o, k)| ==> Collected(o, k)[j].variantIdx < k
    ensures IndicesIncreasing(Collected(o, k))
    ensures forall j :: 0 <= j < |Collected(o, k)| ==> Round(o, Collected(o, k)[j].variantIdx) == Some(Collected(o, k)[j])
  {
    if k > 0 {
      CollectedShape(o, k - 1);
    }
  }

  /** Every successful round below `k` is collected: one failing round
      skips only itself. */
  lemma {:induction false} CollectedComplete(o: Oracles, k: nat, i: nat)
    requires i < k && RoundSucceeds(o, i)
    ensures Round(o, i).value in Collected(o, k)
  {
    if i < k - 1 {
      CollectedComplete(o, k - 1, i);
    }
  }

  /** `BestOfNBuilder.exec`: the variants it returns, or the exception
      that escapes its loop. */
  method Exec(n: int, o: Oracles) returns (r: Attempt<seq<Variant>>)
    ensures r.Returned? <==> forall i :: 0 <= i < n ==> RoundEscape(o, i).None?
    ensures r.Returned? ==> r.value == Collected(o, if n < 0 then 0 else n)
    ensures r.Returned? ==> |r.value| <= (if n < 0 then 0 else n)
    ensures r.Returned? ==> forall j :: 0 <= j < |r.value| ==> 0 <= r.value[j].variantIdx < n
    ensures r.Returned? ==> IndicesIncreasing(r.value)
    ensures r.Returned? ==> forall j :: 0 <= j < |r.value| ==> Round(o, r.value[j].variantIdx) == Some(r.value[j])
    ensures r.Failed? ==> !r.exc.IsError()
    ensures r.Failed? ==> exists k :: 0 <= k < n && RoundEscape(o, k) == Some(r.exc)
                           && forall i :: 0 <= i < k ==> RoundEscape(o, i).None?
  {
    var vs := [];
    var i := 0;
    while i < n
      invariant 0 <= i && (n >= 0 ==> i <= n) && (n < 0 ==> i == 0)
      invariant vs == Collected(o, i)
      invariant forall j :: 0 <= j < i ==> RoundEscape(o, j).None?
    {
      var escape := RoundEscape(o, i);
      if escape.Some? {
        return Failed(escape.value);
      }
      var v := Round(o, i);
      if v.Some? {
        vs := vs + [v.value];
      }
      i := i + 1;
    }
    CollectedShape(o, i);
    r := Returned(vs);
  }

  // ---------------------------------------------------------------------
  // selection
  // ---------------------------------------------------------------------

  /** The position `max(..., key=score)` picks: the first maximum. */
  function ArgMax(vs: seq<Variant>): (k: nat)
    requires vs != []
    ensures k < |vs|
    ensures forall j :: 0 <= j < |vs| ==> vs[j].score <= vs[k].score
    ensures forall j :: 0 <= j < k ==> vs[j].score < vs[k].score
  {
    if |vs| == 1 then 0
    else
      var k := ArgMax(vs[..|vs| - 1]);
      assert forall j :: 0 <= j < |vs| - 1 ==> vs[..|vs| - 1][j] == vs[j];
      if vs[|vs| - 1].score > vs[k].score then |vs| - 1 else k
  }

  /** `min(v["score"] for v in variants)`. */
  function MinScore(vs: seq<Variant>): (m: real)
    requires vs != []
    ensures forall j :: 0 <= j < |vs| ==> m <= vs[j].score
    ensures exists j :: 0 <= j < |vs| && vs[j].score == m
  {
    if |vs| == 1 then vs[0].score
    else
      var m := MinScore(vs[1..]);
      assert forall j :: 1 <= j < |vs| ==> vs[j] == vs[1..][j - 1];
      if vs[0].score <= m then vs[0].score else m
  }

  /** `max(v["score"] for v in variants)`. */
  function MaxScore(vs: seq<Variant>): (m: real)
    requires vs != []
    ensures forall j :: 0 <= j < |vs| ==> vs[j].score <= m
    ensures exists j :: 0 <= j < |vs| && vs[j].score == m
  {
    if |vs| == 1 then vs[0].score
    else
      var m := MaxScore(vs[1..]);
      assert forall j :: 1 <= j < |vs| ==> vs[j] == vs[1..][j - 1];
      if vs[0].score >= m then vs[0].score else m
  }

  datatype Feedback = Feedback(bestVariantIdx: nat, bestScore: real, variantCount: nat, scoreRange: (real, real))

  /** What `post` writes when there are variants: the winner (whose fields
      are copied into the store), all variants, and the feedback. */
  datatype Selection = Selection(best: Variant, variants: seq<Variant>, feedback: Feedback)

  datatype BestPost = BestPost(selection: Option<Selection>, action: Label)

  const DefaultThreshold := 0.7

  /** `BestOfNBuilder.post`; `threshold` is `shared["score_threshold"]` if
      present. */
  function Post(vs: seq<Variant>, threshold: Option<real>): (p: BestPost)
    ensures vs == [] ==> p == BestPost(None, FailLabel)
    ensures vs != [] ==> (p.selection.Some?
      && p.selection.value.best == vs[ArgMax(vs)]
      && p.selection.value.variants == vs)
    ensures vs != [] ==> var f := p.selection.value.feedback;
      f.bestVariantIdx == p.selection.value.best.variantIdx
      && f.bestScore == p.selection.value.best.score
      && f.variantCount == |vs|
      && f.scoreRange.1 == f.bestScore
      && (forall j :: 0 <= j < |vs| ==> f.scoreRange.0 <= vs[j].score <= f.scoreRange.1)
      && (exists j :: 0 <= j < |vs| && vs[j].score == f.scoreRange.0)
    ensures p.action == SuccessLabel || p.action == FailLabel
    ensures p.action == SuccessLabel <==> vs != [] && vs[ArgMax(vs)].score > threshold.GetOr(DefaultThreshold)
  {
    if vs == [] then BestPost(None, FailLabel)
    else
      var best := vs[ArgMax(vs)];
      var lo := MinScore(vs);
      var hi := MaxScore(vs);
      var feedback := Feedback(best.variantIdx, best.score, |vs|, (lo, hi));
      var action := if best.score > threshold.GetOr(DefaultThreshold) then SuccessLabel else FailLabel;
      BestPost(Some(Selection(best, vs, feedback)), action)
  }

  /** The winner scores at least as much as every variant, and strictly
      more than every variant before it: ties go to the earliest. */
  lemma WinnerIsFirstMaximum(vs: seq<Variant>, threshold: Option<real>, j: nat)
    requires IndicesIncreasing(vs) && j < |vs|
    ensures var best := Post(vs, threshold).selection.value.best;
      best in vs && vs[j].score <= best.score
      && (vs[j].score == best.score ==> best.variantIdx <= vs[j].variantIdx)
  {
    var k := ArgMax(vs);
    if vs[j].score == vs[k].score {
      assert k <= j;
      IncreasingIndices(vs, k, j);
    }
  }

  lemma {:induction false} IncreasingIndices(vs: seq<Variant>, a: nat, b: nat)
    requires IndicesIncreasing(vs) && a <= b < |vs|
    ensures vs[a].variantIdx <= vs[b].variantIdx
    decreases b - a
  {
    if a < b {
      IncreasingIndices(vs, a, b - 1);
    }
  }

  /** A score of 0.0 for every variant (the harness itself writes no
      "score", so every variant falls back to 0.0) never beats a
      non-negative threshold: the builder reports "fail". */
  lemma UnscoredVariantsFail(o: Oracles, n: nat, threshold: Option<real>)
    requires forall i: nat :: RoundSucceeds(o, i) ==> o.test(i, o.mutate(i).value.0, o.mutate(i).value.1, o.build(i, o.mutate(i).value.0, o.mutate(i).value.1).value).value.score.None?
    requires threshold.GetOr(DefaultThreshold) >= 0.0
    ensures Post(Collected(o, n), threshold).action == FailLabel
  {
    var vs := Collected(o, n);
    CollectedShape(o, n);
    if vs != [] {
      var k := ArgMax(vs);
      assert Round(o, vs[k].variantIdx) == Some(vs[k]);
    }
  }

  /** The default `MutationEngine` has no `mutate` method, so with it every
      round raises `AttributeError` at its first step: nothing is
      collected and the builder reports "fail" without a selection. */
  lemma {:induction false} DefaultMutationEngineFails(o: Oracles, n: nat, threshold: Option<real>)
    requires forall i: nat :: o.mutate(i).Failed? && o.mutate(i).exc.IsError()
    ensures forall i: nat :: RoundEscape(o, i).None?
    ensures Collected(o, n) == []
    ensures Post(Collected(o, n), threshold) == BestPost(None, FailLabel)
    decreases n
  {
    if n > 0 {
      DefaultMutationEngineFails(o, n - 1, threshold);
      assert Round(o, n - 1).None?;
    }
  }
}
