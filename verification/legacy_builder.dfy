/** The older flow builder node of engine/flow_builder_node.py: it keeps its
    own registry dictionary in the shared store, numbers builds with an
    integer counter, records whether the line-limit test passed and routes
    on that result. Generating the code, writing files and running the
    line-limit test happen outside the model: the test's verdict is a
    parameter. */
module LegacyBuilder {
  import opened Base
  import opened Directives

  const NoTaskSpecified := "No task specified"
  const TestFailedLabel: Label := "test_failed"
  const DefaultBuildsDir := "heph/builds/"

  /** One entry of the registry's "builds" list. */
  datatype Record = Record(id: int, task: string, filePath: string, timestamp: nat, passedLineTest: bool)

  /** The registry dictionary: "builds", "lineage" and "last_build_id". */
  datatype Ledger = Ledger(builds: seq<Record>, lineage: map<string, seq<string>>, lastBuildId: int)

  /** The registry created when none is in the store and none can be loaded. */
  const EmptyLedger := Ledger([], map[], 0)

  /** `prep`: the build task and directive, with their defaults when absent. */
  function Prep(buildTask: Option<string>, directive: Option<Directive>): (r: (string, Directive))
    ensures buildTask.Some? ==> r.0 == buildTask.value
    ensures buildTask.None? ==> r.0 == NoTaskSpecified
    ensures directive.Some? ==> r.1 == directive.value
    ensures directive.None? ==> r.1 == EmptyDirective && !IsTruthy(r.1)
  {
    (buildTask.GetOr(NoTaskSpecified), directive.GetOr(EmptyDirective))
  }

  /** The registry `post` works on: the one in the store, else the one
      loaded from disk (`loaded` is None when loading raised), else a new
      empty one. */
  function LoadOrCreate(inStore: Option<Ledger>, loaded: Option<Ledger>): (r: Ledger)
    ensures inStore.Some? ==> r == inStore.value
    ensures inStore.None? && loaded.Some? ==> r == loaded.value
    ensures inStore.None? && loaded.None? ==> r.builds == [] && r.lineage == map[] && r.lastBuildId == 0
  {
    match inStore
    case Some(l) => l
    case None => loaded.GetOr(EmptyLedger)
  }

  // ---------------------------------------------------------------------
  // the output path
  // ---------------------------------------------------------------------

  predicate IsDigit(c: char) {
    '0' <= c <= '9'
  }

  /** The decimal digits of `n`. */
  function Digits(n: nat): (s: string)
    ensures s != [] && forall i :: 0 <= i < |s| ==> IsDigit(s[i])
    ensures |s| > 1 ==> s[0] != '0'
    decreases n
  {
    if n < 10 then [DigitChar(n)]
    else Digits(n / 10) + [DigitChar(n % 10)]
  }

  function DigitChar(d: nat): (c: char)
    requires d < 10
    ensures IsDigit(c)
  {
    ['0', '1', '2', '3', '4', '5', '6', '7', '8', '9'][d]
  }

  function DigitValue(c: char): (d: nat)
    requires IsDigit(c)
    ensures d < 10 && DigitChar(d) == c
  {
    if c == '0' then 0 else if c == '1' then 1 else if c == '2' then 2
    else if c == '3' then 3 else if c == '4' then 4 else if c == '5' then 5
    else if c == '6' then 6 else if c == '7' then 7 else if c == '8' then 8 else 9
  }

  /** The value a string of decimal digits denotes. */
  function ValueOf(s: string): nat
    requires forall i :: 0 <= i < |s| ==> IsDigit(s[i])
  {
    if s == [] then 0 else ValueOf(s[..|s| - 1]) * 10 + DigitValue(s[|s| - 1])
  }

  /** Reading the digits back gives the number: two ids never share a
      file name. */
  lemma {:induction false} DigitsRoundTrip(n: nat)
    ensures ValueOf(Digits(n)) == n
    decreases n
  {
    if n >= 10 {
      var s := Digits(n);
      DigitsRoundTrip(n / 10);
      assert s[..|s| - 1] == Digits(n / 10);
      DigitValueOfChar(n % 10);
    } else {
      DigitValueOfChar(n);
    }
  }

  lemma DigitValueOfChar(d: nat)
    requires d < 10
    ensures DigitValue(DigitChar(d)) == d
  {
  }

  /** `str(i)` for an integer. */
  function IntToString(i: int): (s: string)
    ensures s != []
    ensures i >= 0 ==> s == Digits(i)
    ensures i < 0 ==> s == "-" + Digits(-i)
  {
    if i < 0 then "-" + Digits(-i) else Digits(i)
  }

  /** `os.path.join(dir, name)` for a relative `name`. */
  function JoinPath(dir: string, name: string): (p: string)
    ensures dir <= p && |name| <= |p| && p[|p| - |name|..] == name
    ensures dir == [] || dir[|dir| - 1] == '/' ==> p == dir + name
    ensures dir != [] && dir[|dir| - 1] != '/' ==> p == dir + "/" + name
  {
    if dir == [] || dir[|dir| - 1] == '/' then dir + name else dir + "/" + name
  }

  /** `os.path.join(builds_dir, f"build_{new_id}.py")`. */
  function OutPath(dir: string, id: int): (p: string)
    ensures dir <= p
  {
    JoinPath(dir, "build_" + IntToString(id) + ".py")
  }

  /** Two non-negative ids with the same file name are the same id: ids
      never share a file. */
  lemma OutPathInjective(dir: string, a: nat, b: nat)
    requires OutPath(dir, a) == OutPath(dir, b)
    ensures a == b
  {
    var x := if dir == [] || dir[|dir| - 1] == '/' then dir else dir + "/";
    var na := "build_" + Digits(a) + ".py";
    var nb := "build_" + Digits(b) + ".py";
    assert OutPath(dir, a) == x + na;
    assert OutPath(dir, b) == x + nb;
    assert na == (x + na)[|x|..];
    assert nb == (x + nb)[|x|..];
    assert Digits(a) == na[6..|na| - 3];
    assert Digits(b) == nb[6..|nb| - 3];
    DigitsRoundTrip(a);
    DigitsRoundTrip(b);
  }

  // ---------------------------------------------------------------------
  // post
  // ---------------------------------------------------------------------

  datatype Feedback = Feedback(buildId: int, passedLineTest: bool, remarks: string)

  const PassedRemarks := "Build file is within line limit."
  const FailedRemarks := "Build file exceeded line limit."

  /** What `post` leaves behind: the updated registry, the record it
      appended, the feedback it stored, and its action. */
  datatype LegacyPost = LegacyPost(registry: Ledger, record: Record, feedback: Feedback, action: Label)

  /** `FlowBuilderNode.post`: `passed` is what the line-limit test said
      about the saved file and `timestamp` the clock reading. */
  function Post(inStore: Option<Ledger>, loaded: Option<Ledger>, buildsDir: string,
                prepRes: (string, Directive), passed: bool, timestamp: nat): (p: LegacyPost)
    ensures var before := LoadOrCreate(inStore, loaded);
      && p.record.id == before.lastBuildId + 1
      && p.registry.lastBuildId == p.record.id
      && p.registry.builds == before.builds + [p.record]
      && p.registry.lineage == before.lineage
    ensures p.record.task == prepRes.0 && p.record.passedLineTest == passed
    ensures p.record.filePath == OutPath(buildsDir, p.record.id) && p.record.timestamp == timestamp
    ensures p.feedback.buildId == p.record.id && p.feedback.passedLineTest == passed
    ensures p.feedback.remarks == (if passed then PassedRemarks else FailedRemarks)
    ensures p.action == DefaultLabel <==> passed
    ensures p.action == TestFailedLabel <==> !passed
  {
    var registry := LoadOrCreate(inStore, loaded);
    var newId := registry.lastBuildId + 1;
    var record := Record(newId, prepRes.0, OutPath(buildsDir, newId), timestamp, passed);
    var registry' := registry.(builds := registry.builds + [record], lastBuildId := newId);
    if passed then
      LegacyPost(registry', record, Feedback(newId, true, PassedRemarks), DefaultLabel)
    else
      LegacyPost(registry', record, Feedback(newId, false, FailedRemarks), TestFailedLabel)
  }

  /** One build as the store sees it on the next call: its task, the
      test's verdict and the clock reading. */
  datatype Build = Build(task: string, passed: bool, timestamp: nat)

  /** Successive posts on the registry kept in the store. */
  function PostAll(registry: Ledger, buildsDir: string, builds: seq<Build>): (r: Ledger)
    decreases |builds|
  {
    if builds == [] then registry
    else
      var b := builds[0];
      var p := Post(Some(registry), None, buildsDir, (b.task, EmptyDirective), b.passed, b.timestamp);
      PostAll(p.registry, buildsDir, builds[1..])
  }

  /** `rs` records `builds`, in order, under the ids following `last`. */
  predicate Numbered(rs: seq<Record>, last: int, builds: seq<Build>) {
    |rs| == |builds|
    && forall i :: 0 <= i < |builds| ==>
         rs[i].id == last + 1 + i && rs[i].task == builds[i].task && rs[i].passedLineTest == builds[i].passed
  }

  /** One post on the registry in the store appends the build's record
      under the next id. */
  lemma PostStep(registry: Ledger, buildsDir: string, b: Build)
    ensures var r := Post(Some(registry), None, buildsDir, (b.task, EmptyDirective), b.passed, b.timestamp).registry;
      && r.builds == registry.builds + [Record(registry.lastBuildId + 1, b.task, OutPath(buildsDir, registry.lastBuildId + 1), b.timestamp, b.passed)]
      && r.lastBuildId == registry.lastBuildId + 1
  {
  }

  /** Successive posts keep the earlier records and advance the counter
      by one per build. */
  lemma {:induction false} PostAllKeeps(registry: Ledger, buildsDir: string, builds: seq<Build>)
    ensures var r := PostAll(registry, buildsDir, builds);
      && |r.builds| == |registry.builds| + |builds|
      && r.builds[..|registry.builds|] == registry.builds
      && r.lastBuildId == registry.lastBuildId + |builds|
    decreases |builds|
  {
    if builds != [] {
      var b := builds[0];
      PostStep(registry, buildsDir, b);
      var reg1 := Post(Some(registry), None, buildsDir, (b.task, EmptyDirective), b.passed, b.timestamp).registry;
      PostAllKeeps(reg1, buildsDir, builds[1..]);
      var r := PostAll(registry, buildsDir, builds);
      assert r == PostAll(reg1, buildsDir, builds[1..]);
      assert r.builds[..|registry.builds|] == r.builds[..|reg1.builds|][..|registry.builds|];
    }
  }

  lemma NumberedCons(rec: Record, rest: seq<Record>, last: int, builds: seq<Build>)
    requires builds != [] && Numbered(rest, last + 1, builds[1..])
    requires rec.id == last + 1 && rec.task == builds[0].task && rec.passedLineTest == builds[0].passed
    ensures Numbered([rec] + rest, last, builds)
  {
    forall i | 1 <= i < |builds|
      ensures ([rec] + rest)[i].id == last + 1 + i
        && ([rec] + rest)[i].task == builds[i].task && ([rec] + rest)[i].passedLineTest == builds[i].passed
    {
      assert ([rec] + rest)[i] == rest[i - 1];
      assert builds[1..][i - 1] == builds[i];
    }
  }

  /** The records successive posts append are numbered consecutively after
      the counter, one per build, in order. */
  lemma {:induction false} PostAllNumbers(registry: Ledger, buildsDir: string, builds: seq<Build>)
    ensures var r := PostAll(registry, buildsDir, builds);
      && |registry.builds| <= |r.builds|
      && Numbered(r.builds[|registry.builds|..], registry.lastBuildId, builds)
    decreases |builds|
  {
    var r := PostAll(registry, buildsDir, builds);
    var n := |registry.builds|;
    if builds == [] {
      assert r.builds[n..] == [];
    } else {
      var b := builds[0];
      PostStep(registry, buildsDir, b);
      var reg1 := Post(Some(registry), None, buildsDir, (b.task, EmptyDirective), b.passed, b.timestamp).registry;
      PostAllNumbers(reg1, buildsDir, builds[1..]);
      PostAllKeeps(reg1, buildsDir, builds[1..]);
      assert r == PostAll(reg1, buildsDir, builds[1..]);
      var rec := reg1.builds[n];
      assert |reg1.builds| == n + 1 && rec.id == registry.lastBuildId + 1;
      PrefixAt(r.builds, reg1.builds, n);
      SplitAt(r.builds, n);
      NumberedCons(rec, r.builds[n + 1..], registry.lastBuildId, builds);
    }
  }

  lemma PrefixAt<T>(s: seq<T>, p: seq<T>, i: nat)
    requires |p| <= |s| && s[..|p|] == p && i < |p|
    ensures s[i] == p[i]
  {
    assert s[..|p|][i] == s[i];
  }

  lemma SplitAt<T>(s: seq<T>, i: nat)
    requires i < |s|
    ensures s[i..] == [s[i]] + s[i + 1..]
  {
  }

  /** Starting from a fresh registry, the ids are 1, 2, 3, …: strictly
      increasing and never reused. */
  lemma FreshRegistryCountsFromOne(buildsDir: string, builds: seq<Build>)
    ensures var r := PostAll(EmptyLedger, buildsDir, builds);
      && |r.builds| == |builds|
      && (forall i :: 0 <= i < |builds| ==> r.builds[i].id == i + 1 && r.builds[i].task == builds[i].task)
      && (forall i, j :: 0 <= i < j < |builds| ==> r.builds[i].id < r.builds[j].id)
  {
    PostAllNumbers(EmptyLedger, buildsDir, builds);
    PostAllKeeps(EmptyLedger, buildsDir, builds);
    var r := PostAll(EmptyLedger, buildsDir, builds);
    assert r.builds[0..] == r.builds;
  }
}
