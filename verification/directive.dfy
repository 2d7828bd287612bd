/** The directive: the dictionary that steers a build. Only the keys the
    build loop reads or writes are modelled; `None` is an absent key. */
module Directives {
  import opened Base

  datatype Constraints = Constraints(
    maxLinesPerFile: Option<int>,
    requireRegistryLogging: Option<bool>,
    maxLines: Option<int>,
    allowedImports: Option<seq<string>>,
    expectedOutput: Option<string>)

  datatype Directive = Directive(
    goal: Option<string>,
    constraints: Option<Constraints>,
    rewardCriteria: Option<seq<string>>)

  /** `{}`. */
  const EmptyConstraints := Constraints(None, None, None, None, None)
  const EmptyDirective := Directive(None, None, None)

  /** Python truthiness of a directive: a non-empty dictionary. */
  predicate IsTruthy(d: Directive) {
    d != EmptyDirective
  }

  const DefaultGoal := "Expand Hephaestus' capabilities"
  const DefaultCriteria: seq<string> := ["modularity", "reusability", "fault_tolerance"]

  /** The directive both `GoalProposer.default_directive` and
      `DirectiveLoader.exec` build. */
  const DefaultDirective := Directive(
    Some(DefaultGoal),
    Some(Constraints(Some(200), Some(true), None, None, None)),
    Some(DefaultCriteria))

  /** `a` and `b` carry the same constraint keys. */
  predicate SameConstraintKeys(a: Constraints, b: Constraints) {
    a.maxLinesPerFile.Some? == b.maxLinesPerFile.Some?
    && a.requireRegistryLogging.Some? == b.requireRegistryLogging.Some?
    && a.maxLines.Some? == b.maxLines.Some?
    && a.allowedImports.Some? == b.allowedImports.Some?
    && a.expectedOutput.Some? == b.expectedOutput.Some?
  }

  /** `a` and `b` carry the same top-level keys, and the same constraint
      keys when both carry constraints. */
  predicate SameKeys(a: Directive, b: Directive) {
    a.goal.Some? == b.goal.Some?
    && a.constraints.Some? == b.constraints.Some?
    && a.rewardCriteria.Some? == b.rewardCriteria.Some?
    && (a.constraints.Some? && b.constraints.Some? ==> SameConstraintKeys(a.constraints.value, b.constraints.value))
  }

  /** `directive.get("constraints", {})`. */
  function ConstraintsOf(d: Directive): (c: Constraints)
    ensures d.constraints.None? ==> c == EmptyConstraints
    ensures d.constraints.Some? ==> c == d.constraints.value
  {
    d.constraints.GetOr(EmptyConstraints)
  }
}
