/** The test harness node: it counts lines, takes the parse and execution
    outcome of the generated code as inputs, checks the directive's
    constraints and turns the results into a "success"/"fail" verdict. */
module Harness {
  import opened Base
  import opened Text
  import opened Directives

  /** What `ast.parse` made of the code: a syntax error, or the imports it
      names (in walk order) and whether it has an `if __name__ == "__main__"`
      block. */
  datatype Parse = SyntaxError(message: string) | Parsed(imports: seq<string>, hasMain: bool)

  /** How importing the module or calling `main()` raised: the exception
      and the traceback `traceback.format_exc()` would give. `except
      Exception` catches it only when it is an `Exception`; a `SystemExit`
      or `KeyboardInterrupt` gets through. */
  datatype Crash = Crash(exc: Exc, traceback: string)

  /** What importing the module and calling `main()` did: how it raised,
      if it did, and the captured streams. */
  datatype Execution = Execution(crash: Option<Crash>, stdout: string, stderr: string)

  /** `results["constraint_check"]`: one optional entry per constraint. */
  datatype Checks = Checks(lineCount: Option<bool>, imports: Option<bool>, output: Option<bool>)

  const NoChecks := Checks(None, None, None)

  datatype TestResults = TestResults(
    syntaxValid: bool,
    hasMain: bool,
    imports: seq<string>,
    output: string,
    errors: seq<string>,
    executed: bool,
    lineCount: nat,
    checks: Checks)

  /** `len(code.strip().split("\n"))`. */
  function LineCount(code: string): (n: nat)
    ensures n >= 1
    ensures n == Count(Strip(code), '\n') + 1
  {
    SplitOnProperties(Strip(code), '\n');
    |SplitOn(Strip(code), '\n')|
  }

  /** The `for imp in imports: if imp not in allowed: ... break / else`
      loop. */
  function AllAllowed(imports: seq<string>, allowed: seq<string>): (b: bool)
    ensures b <==> forall i :: 0 <= i < |imports| ==> imports[i] in allowed
  {
    if imports == [] then true
    else if imports[0] !in allowed then false
    else
      var b := AllAllowed(imports[1..], allowed);
      assert forall i :: 1 <= i < |imports| ==> imports[i] == imports[1..][i - 1];
      b
  }

  /** The constraint checks of the directive's `constraints`. */
  function CheckConstraints(c: Constraints, lineCount: nat, imports: seq<string>, output: string): (r: Checks)
    ensures r.lineCount.Some? <==> c.maxLines.Some?
    ensures r.lineCount.Some? ==> (r.lineCount.value <==> lineCount <= c.maxLines.value)
    ensures r.imports.Some? <==> c.allowedImports.Some?
    ensures r.imports.Some? ==> (r.imports.value <==> forall i :: 0 <= i < |imports| ==> imports[i] in c.allowedImports.value)
    ensures r.output.Some? <==> c.expectedOutput.Some?
    ensures r.output.Some? ==> (r.output.value <==> IsSubstring(c.expectedOutput.value, output))
  {
    Checks(
      if c.maxLines.Some? then Some(lineCount <= c.maxLines.value) else None,
      if c.allowedImports.Some? then Some(AllAllowed(imports, c.allowedImports.value)) else None,
      if c.expectedOutput.Some? then Some(Contains(output, c.expectedOutput.value)) else None)
  }

  /** How `TestHarness.exec` ends: with its test results, or with an
      exception escaping it. An escaping exception also skips collecting
      the output and restoring `sys.stdout` and `sys.stderr`. */
  datatype HarnessRun = Completed(results: TestResults) | Interrupted(exc: Exc)

  /** The generated code raised something `except Exception` lets through. */
  predicate Escapes(run: Execution) {
    run.crash.Some? && !run.crash.value.exc.IsError()
  }

  /** `TestHarness.exec`. */
  function Exec(code: string, directive: Directive, parse: Parse, run: Execution): (r: HarnessRun)
    ensures r.Interrupted? <==> parse.Parsed? && Escapes(run)
    ensures r.Interrupted? ==> r.exc == run.crash.value.exc
    ensures r.Completed? ==> r.results.lineCount == LineCount(code)
    ensures parse.SyntaxError? ==>
      var t := r.results;
      !t.syntaxValid && !t.executed && !t.hasMain && t.imports == [] && t.output == ""
      && t.checks == NoChecks && |t.errors| == 1
    ensures parse.Parsed? && r.Completed? ==>
      var t := r.results;
      t.syntaxValid && t.hasMain == parse.hasMain && t.imports == parse.imports
      && t.executed == run.crash.None? && t.output == run.stdout
      && t.checks == CheckConstraints(ConstraintsOf(directive), LineCount(code), parse.imports, run.stdout)
    ensures parse.Parsed? && r.Completed? ==> r.results.errors != []
  {
    var lines := LineCount(code);
    match parse
    case SyntaxError(msg) =>
      Completed(TestResults(false, false, [], "", ["Syntax error: " + msg], false, lines, NoChecks))
    case Parsed(imports, hasMain) =>
      var stderrLines := SplitOn(run.stderr, '\n');
      var checks := CheckConstraints(ConstraintsOf(directive), lines, imports, run.stdout);
      match run.crash
      case None =>
        Completed(TestResults(true, hasMain, imports, run.stdout, stderrLines, true, lines, checks))
      case Some(Crash(exc, tb)) =>
        if exc.IsError() then
          var errors := ["Runtime error: " + exc.message, tb] + stderrLines;
          Completed(TestResults(true, hasMain, imports, run.stdout, errors, false, lines, checks))
        else Interrupted(exc)
  }

  /** The error list ends with the lines of the captured standard error. */
  lemma ErrorsEndWithStderr(code: string, directive: Directive, imports: seq<string>, hasMain: bool, run: Execution)
    ensures var r := Exec(code, directive, Parsed(imports, hasMain), run);
      var lines := SplitOn(run.stderr, '\n');
      r.Completed? ==>
        |r.results.errors| == |lines| + (if run.crash.Some? then 2 else 0)
        && r.results.errors[|r.results.errors| - |lines|..] == lines
        && JoinOn(r.results.errors[|r.results.errors| - |lines|..], '\n') == run.stderr
  {
    SplitOnProperties(run.stderr, '\n');
  }

  /** `bool([e for e in errors if e])`. */
  predicate HasErrors(errors: seq<string>) {
    exists i :: 0 <= i < |errors| && errors[i] != ""
  }

  /** What `TestHarness.post` writes into the shared store, and the action
      it returns. */
  datatype HarnessPost = HarnessPost(testResults: TestResults, imports: seq<string>, action: Label)

  /** `TestHarness.post`. */
  function Post(r: TestResults): (p: HarnessPost)
    ensures p.testResults == r && p.imports == r.imports
    ensures p.action == SuccessLabel || p.action == FailLabel
    ensures p.action == SuccessLabel <==> r.syntaxValid && r.executed && !HasErrors(r.errors)
  {
    var action := if r.syntaxValid && r.executed && !HasErrors(r.errors) then SuccessLabel else FailLabel;
    HarnessPost(r, r.imports, action)
  }

  /** Every piece of `s.split("\n")` is empty exactly when `s` holds
      nothing but newlines. */
  lemma {:induction false} SplitAllEmpty(s: string)
    ensures !HasErrors(SplitOn(s, '\n')) <==> forall i :: 0 <= i < |s| ==> s[i] == '\n'
    decreases |s|
  {
    if s != [] {
      SplitAllEmpty(s[1..]);
      var rest := SplitOn(s[1..], '\n');
      var r := SplitOn(s, '\n');
      if s[0] == '\n' {
        assert r == [""] + rest;
        assert HasErrors(r) <==> HasErrors(rest) by {
          if HasErrors(rest) {
            var i :| 0 <= i < |rest| && rest[i] != "";
            assert r[i + 1] == rest[i];
          }
          if HasErrors(r) {
            var i :| 0 <= i < |r| && r[i] != "";
            assert rest[i - 1] == r[i];
          }
        }
        assert (forall i :: 0 <= i < |s| ==> s[i] == '\n') <==> (forall i :: 0 <= i < |s[1..]| ==> s[1..][i] == '\n') by {
          if forall i :: 0 <= i < |s[1..]| ==> s[1..][i] == '\n' {
            forall i | 0 <= i < |s|
              ensures s[i] == '\n'
            {
              if i > 0 {
                assert s[i] == s[1..][i - 1];
              }
            }
          }
        }
      } else {
        assert r[0] == [s[0]] + rest[0] && r[0] != "";
      }
    }
  }

  /** The harness passes code exactly when it parses, runs without raising,
      and writes nothing but newlines to standard error. */
  lemma SuccessIff(code: string, directive: Directive, parse: Parse, run: Execution)
    ensures Exec(code, directive, parse, run).Completed?
         && Post(Exec(code, directive, parse, run).results).action == SuccessLabel
        <==> parse.Parsed? && run.crash.None? && forall i :: 0 <= i < |run.stderr| ==> run.stderr[i] == '\n'
  {
    if parse.Parsed? && run.crash.None? {
      var r := Exec(code, directive, parse, run).results;
      assert r.errors == [] + SplitOn(run.stderr, '\n');
      assert r.errors == SplitOn(run.stderr, '\n');
      SplitAllEmpty(run.stderr);
    }
  }
}
