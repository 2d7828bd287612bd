/** The mutation engine: perturbs a task (verb swaps and one injected
    adjective) and a directive (line budget and reward criteria). Each
    `random.random() < entropy` test consumes one draw, and only when
    Python's short-circuit reaches it. */
module Mutation {
  import opened Base
  import opened Text
  import opened Directives
  import opened Random

  const VerbSwaps: map<string, seq<string>> := map[
    "build" := ["forge", "construct", "assemble", "fabricate"],
    "extract" := ["harvest", "pull", "gather", "retrieve"],
    "summarize" := ["distill", "reduce", "interpret", "compress"],
    "analyze" := ["study", "dissect", "inspect", "scrutinize"]]

  const Adjectives: seq<string> := ["minimal", "robust", "async-compatible", "fault-tolerant", "reusable"]

  const PotentialCriteria: seq<string> :=
    ["modularity", "clarity", "speed", "elegance", "robustness", "testability", "maintainability"]

  /** Every replacement word is a single non-empty word. */
  predicate IsWord(w: string) { w != [] && NoSpace(w) }

  lemma ReplacementsAreWords()
    ensures forall k :: k in VerbSwaps ==> VerbSwaps[k] != []
    ensures forall k, i :: k in VerbSwaps && 0 <= i < |VerbSwaps[k]| ==> IsWord(VerbSwaps[k][i])
    ensures forall i :: 0 <= i < |Adjectives| ==> IsWord(Adjectives[i])
  {
    SynonymsAreWords();
    ListOfWords(Adjectives);
  }

  lemma SynonymsAreWords()
    ensures forall k, i :: k in VerbSwaps && 0 <= i < |VerbSwaps[k]| ==> IsWord(VerbSwaps[k][i])
  {
    ListOfWords(["forge", "construct", "assemble", "fabricate"]);
    ListOfWords(["harvest", "pull", "gather", "retrieve"]);
    ListOfWords(["distill", "reduce", "interpret", "compress"]);
    ListOfWords(["study", "dissect", "inspect", "scrutinize"]);
  }

  /** Lower-case letters and hyphens only. */
  predicate Plain(w: string) {
    forall i :: 0 <= i < |w| ==> 'a' <= w[i] <= 'z' || w[i] == '-'
  }

  lemma ListOfWords(ws: seq<string>)
    requires forall i :: 0 <= i < |ws| ==> ws[i] != [] && Plain(ws[i])
    ensures forall i :: 0 <= i < |ws| ==> IsWord(ws[i])
  {
  }

  // ---------------------------------------------------------------------
  // mutate_task
  // ---------------------------------------------------------------------

  /** `w2` is `w` or one of the listed synonyms of `w`'s lowercase form. */
  predicate SwapOf(w: string, w2: string) {
    w2 == w || (Lower(w) in VerbSwaps && w2 in VerbSwaps[Lower(w)])
  }

  predicate SwapsOf(ws: seq<string>, ws2: seq<string>) {
    |ws| == |ws2| && forall i :: 0 <= i < |ws| ==> SwapOf(ws[i], ws2[i])
  }

  /** The word loop of `mutate_task`. */
  function SwapWords(words: seq<string>, entropy: real, g: Rng): (r: (seq<string>, Rng))
    requires Valid(g)
    ensures Valid(r.1)
    ensures SwapsOf(words, r.0)
    ensures entropy <= 0.0 ==> r.0 == words
  {
    if words == [] then ([], g)
    else
      var w := words[0];
      var lower := Lower(w);
      var (w2, g1) :=
        if lower in VerbSwaps then
          var (u, g2) := Next(g);
          ReplacementsAreWords();
          if u < entropy then Choice(g2, VerbSwaps[lower]) else (w, g2)
        else (w, g);
      var (rest, g3) := SwapWords(words[1..], entropy, g1);
      assert forall i :: 1 <= i < |words| ==> words[i] == words[1..][i - 1];
      ([w2] + rest, g3)
  }

  /** `list.insert(idx, x)` for an index inside the list. */
  function InsertAt(ws: seq<string>, idx: nat, x: string): (r: seq<string>)
    requires idx <= |ws|
    ensures |r| == |ws| + 1 && r[idx] == x
    ensures r[..idx] == ws[..idx] && r[idx + 1..] == ws[idx..]
  {
    ws[..idx] + [x] + ws[idx..]
  }

  /** The outcome of `mutate_task` on the word level: the swapped words,
      possibly with one adjective inserted. `None` is the ValueError
      `randint(1, 0)` raises on a task of fewer than two words. */
  function MutateWords(task: string, entropy: real, g: Rng): (r: Option<(seq<string>, Rng)>)
    requires Valid(g)
    ensures r.Some? ==> Valid(r.value.1)
    ensures r.None? ==> |Words(task)| < 2 && entropy > 0.0
    ensures |Words(task)| >= 2 || entropy <= 0.0 ==> r.Some?
    ensures entropy <= 0.0 ==> r.Some? && r.value.0 == Words(task)
    ensures r.None? <==> |Words(task)| < 2 && Next(SwapWords(Words(task), entropy, g).1).0 < entropy
  {
    var (swapped, g1) := SwapWords(Words(task), entropy, g);
    var (u, g2) := Next(g1);
    if u < entropy then
      match RandInt(g2, 1, |swapped| - 1)
      case None => None
      case Some((idx, g3)) =>
        var (adj, g4) := Choice(g3, Adjectives);
        Some((InsertAt(swapped, idx, adj), g4))
    else Some((swapped, g2))
  }

  /** The mutated word list is the build task's words with synonyms swapped in,
      and either nothing else or one listed adjective at an index other
      than the first and the last. */
  lemma MutateWordsShape(task: string, entropy: real, g: Rng)
    requires Valid(g) && MutateWords(task, entropy, g).Some?
    ensures var ws := Words(task);
      var out := MutateWords(task, entropy, g).value.0;
      SwapsOf(ws, out)
      || (|out| == |ws| + 1 && exists idx :: (1 <= idx < |ws| && out[idx] in Adjectives
          && SwapsOf(ws, out[..idx] + out[idx + 1..])))
  {
    var ws := Words(task);
    var (swapped, g1) := SwapWords(ws, entropy, g);
    var (u, g2) := Next(g1);
    if u < entropy {
      var (idx, g3) := RandInt(g2, 1, |swapped| - 1).value;
      var (adj, g4) := Choice(g3, Adjectives);
      InsertShape(ws, swapped, idx, adj);
    } else {
      assert swapped == MutateWords(task, entropy, g).value.0;
    }
  }

  lemma InsertShape(ws: seq<string>, swapped: seq<string>, idx: int, adj: string)
    requires SwapsOf(ws, swapped) && 1 <= idx < |ws| && adj in Adjectives
    ensures var out := InsertAt(swapped, idx, adj);
      |out| == |ws| + 1 && exists k :: (1 <= k < |ws| && out[k] in Adjectives
          && SwapsOf(ws, out[..k] + out[k + 1..]))
  {
    var out := InsertAt(swapped, idx, adj);
    assert out[..idx] + out[idx + 1..] == swapped;
  }

  /** `mutate_task`: the mutated words joined by single spaces. */
  function MutateTask(task: string, entropy: real, g: Rng): (r: Option<(string, Rng)>)
    requires Valid(g)
    ensures r.Some? <==> MutateWords(task, entropy, g).Some?
    ensures r.Some? ==> Valid(r.value.1)
  {
    match MutateWords(task, entropy, g)
    case None => None
    case Some((ws, g1)) => Some((JoinWords(ws), g1))
  }

  /** Splitting the mutated task gives back the mutated word list: every
      input word, synonym and adjective is a single word. */
  lemma MutateTaskWords(task: string, entropy: real, g: Rng)
    requires Valid(g) && MutateTask(task, entropy, g).Some?
    ensures Words(MutateTask(task, entropy, g).value.0) == MutateWords(task, entropy, g).value.0
  {
    var out := MutateWords(task, entropy, g).value.0;
    var ws := Words(task);
    MutateWordsShape(task, entropy, g);
    if SwapsOf(ws, out) {
      SwapsAreWords(ws, out);
    } else {
      var idx :| 1 <= idx < |ws| && out[idx] in Adjectives && SwapsOf(ws, out[..idx] + out[idx + 1..]);
      SwapsAreWords(ws, out[..idx] + out[idx + 1..]);
      InsertedAreWords(out, idx, out[..idx] + out[idx + 1..]);
    }
    WordsOfJoin(out);
  }

  /** Swapping synonyms into a list of words yields words. */
  lemma SwapsAreWords(ws: seq<string>, out: seq<string>)
    requires forall i :: 0 <= i < |ws| ==> ws[i] != [] && NoSpace(ws[i])
    requires SwapsOf(ws, out)
    ensures forall i :: 0 <= i < |out| ==> IsWord(out[i])
  {
    ReplacementsAreWords();
    forall i | 0 <= i < |out| ensures IsWord(out[i]) {
      assert SwapOf(ws[i], out[i]);
    }
  }

  /** A list of words with one adjective inserted is a list of words. */
  lemma InsertedAreWords(out: seq<string>, idx: nat, rest: seq<string>)
    requires idx < |out| && out[idx] in Adjectives && rest == out[..idx] + out[idx + 1..]
    requires forall i :: 0 <= i < |rest| ==> IsWord(rest[i])
    ensures forall i :: 0 <= i < |out| ==> out[i] != [] && NoSpace(out[i])
  {
    ReplacementsAreWords();
    forall i | 0 <= i < |out| ensures IsWord(out[i]) {
      if i < idx {
        assert out[i] == rest[i];
      } else if i > idx {
        assert out[i] == rest[i - 1];
      }
    }
  }

  /** With entropy 0 the build task only has its whitespace normalised. */
  lemma ZeroEntropyTask(task: string, g: Rng)
    requires Valid(g)
    ensures MutateTask(task, 0.0, g).Some?
    ensures MutateTask(task, 0.0, g).value.0 == JoinWords(Words(task))
    ensures Words(MutateTask(task, 0.0, g).value.0) == Words(task)
  {
    NormaliseKeepsWords(task);
  }

  // ---------------------------------------------------------------------
  // mutate_directive
  // ---------------------------------------------------------------------

  /** Python's `int(x)` on a float: truncation toward zero. */
  function Trunc(x: real): (r: int)
    ensures 0.0 <= x ==> r as real <= x < r as real + 1.0
    ensures x < 0.0 ==> r as real - 1.0 < x <= r as real
  {
    if x >= 0.0 then x.Floor else -((-x).Floor)
  }

  /** `max(50, min(v, 200))`. */
  function Clamp(v: int): (r: int)
    ensures 50 <= r <= 200
    ensures 50 <= v <= 200 ==> r == v
    ensures v < 50 ==> r == 50
    ensures v > 200 ==> r == 200
  {
    if v < 50 then 50 else if v > 200 then 200 else v
  }

  /** The new `max_lines_per_file` from the current one and one draw. */
  function ScaleLines(current: int, u: real): (r: int)
    ensures 50 <= r <= 200
  {
    Clamp(Trunc(current as real * (0.8 + 0.4 * u)))
  }

  /** Before clamping, a non-negative budget moves by at most 20% (less
      the truncation). */
  lemma ScaleWithinFifth(current: int, u: real)
    requires 0 <= current && 0.0 <= u < 1.0
    ensures var v := Trunc(current as real * (0.8 + 0.4 * u));
      0.8 * (current as real) - 1.0 < v as real <= 1.2 * (current as real)
      && ScaleLines(current, u) == Clamp(v)
  {
    var c := current as real;
    assert c * (0.8 + 0.4 * u) == 0.8 * c + 0.4 * (c * u);
    assert 0.0 <= c * u <= c by {
      assert c * (1.0 - u) >= 0.0;
    }
  }

  /** The constraints branch of `mutate_directive`. */
  function MutateConstraints(c: Constraints, entropy: real, g: Rng): (r: (Constraints, Rng))
    requires Valid(g)
    ensures Valid(r.1) && SameConstraintKeys(c, r.0)
    ensures r.0 == c.(maxLinesPerFile := r.0.maxLinesPerFile)
    ensures r.0.maxLinesPerFile == c.maxLinesPerFile || 50 <= r.0.maxLinesPerFile.value <= 200
    ensures entropy <= 0.0 ==> r.0 == c
  {
    var (u, g1) := Next(g);
    if u < entropy then
      if c.maxLinesPerFile.Some? then
        var (u2, g2) := Next(g1);
        if u2 < entropy then
          var (u3, g3) := Next(g2);
          (c.(maxLinesPerFile := Some(ScaleLines(c.maxLinesPerFile.value, u3))), g3)
        else (c, g2)
      else (c, g1)
    else (c, g1)
  }

  /** `[c for c in potential_criteria if c not in existing]`. */
  function Missing(potential: seq<string>, existing: seq<string>): (r: seq<string>)
    ensures forall x :: x in r <==> x in potential && x !in existing
  {
    if potential == [] then []
    else (if potential[0] in existing then [] else [potential[0]]) + Missing(potential[1..], existing)
  }

  /** The reward-criteria branch of `mutate_directive`. */
  function MutateCriteria(criteria: seq<string>, entropy: real, g: Rng): (r: (seq<string>, Rng))
    requires Valid(g)
    ensures Valid(r.1)
    ensures multiset(r.0) == multiset(criteria)
      || exists x :: x in PotentialCriteria && x !in criteria && multiset(r.0) == multiset(criteria) + multiset{x}
    ensures entropy <= 0.0 ==> r.0 == criteria
  {
    var (u, g1) := Next(g);
    if u < entropy then
      var unused := Missing(PotentialCriteria, criteria);
      var (grown, g2) :=
        if unused != [] then
          var (u2, g3) := Next(g1);
          if u2 < entropy then
            var (x, g4) := Choice(g3, unused);
            (criteria + [x], g4)
          else (criteria, g3)
        else (criteria, g1);
      var (u5, g5) := Next(g2);
      if u5 < entropy then Shuffle(grown, g5) else (grown, g5)
    else (criteria, g1)
  }

  /** `mutate_directive`, on a copy: the result has the same keys, the
      goal unchanged, a line budget either unchanged or in [50, 200], and
      at most one new reward criterion. */
  function MutateDirective(d: Directive, entropy: real, g: Rng): (r: (Directive, Rng))
    requires Valid(g)
    ensures Valid(r.1) && SameKeys(d, r.0)
    ensures r.0.goal == d.goal
    ensures r.0.constraints.Some? ==>
      r.0.constraints.value == d.constraints.value.(maxLinesPerFile := r.0.constraints.value.maxLinesPerFile)
    ensures r.0.constraints.Some? && r.0.constraints.value.maxLinesPerFile.Some? ==>
      (r.0.constraints.value.maxLinesPerFile == d.constraints.value.maxLinesPerFile
       || 50 <= r.0.constraints.value.maxLinesPerFile.value <= 200)
    ensures r.0.rewardCriteria.Some? ==>
      (multiset(r.0.rewardCriteria.value) == multiset(d.rewardCriteria.value)
       || exists x :: (x in PotentialCriteria && x !in d.rewardCriteria.value
          && multiset(r.0.rewardCriteria.value) == multiset(d.rewardCriteria.value) + multiset{x}))
    ensures entropy <= 0.0 ==> r.0 == d
  {
    var (constraints, g1) :=
      if d.constraints.Some? then
        var (c, g2) := MutateConstraints(d.constraints.value, entropy, g);
        (Some(c), g2)
      else (None, g);
    var (criteria, g3) :=
      if d.rewardCriteria.Some? then
        var (cr, g4) := MutateCriteria(d.rewardCriteria.value, entropy, g1);
        (Some(cr), g4)
      else (None, g1);
    (d.(constraints := constraints, rewardCriteria := criteria), g3)
  }

  // ---------------------------------------------------------------------
  // exec
  // ---------------------------------------------------------------------

  datatype TaskVariant = TaskVariant(task: string, directive: Directive)

  /** One round: `mutate_task` then `mutate_directive`. */
  function MutateRound(task: string, d: Directive, entropy: real, g: Rng): (r: Option<(TaskVariant, Rng)>)
    requires Valid(g)
    ensures r.Some? ==> Valid(r.value.1) && SameKeys(d, r.value.0.directive)
    ensures entropy <= 0.0 ==> r.Some? && r.value.0 == TaskVariant(JoinWords(Words(task)), d)
    ensures |Words(task)| >= 2 ==> r.Some?
  {
    match MutateTask(task, entropy, g)
    case None => None
    case Some((t, g1)) =>
      var (d2, g2) := MutateDirective(d, entropy, g1);
      ZeroEntropyTask(task, g);
      Some((TaskVariant(t, d2), g2))
  }

  /** `count` rounds of (mutate_task, mutate_directive); `None` when a
      round raises. */
  function MutatedRounds(task: string, d: Directive, count: nat, entropy: real, g: Rng): (r: Option<(seq<TaskVariant>, Rng)>)
    requires Valid(g)
    ensures r.Some? ==> |r.value.0| == count && Valid(r.value.1)
    ensures entropy <= 0.0 ==> r.Some?
    ensures |Words(task)| >= 2 ==> r.Some?
    decreases count
  {
    if count == 0 then Some(([], g))
    else
      match MutateRound(task, d, entropy, g)
      case None => None
      case Some((v, g1)) =>
        match MutatedRounds(task, d, count - 1, entropy, g1)
        case None => None
        case Some((rest, g2)) => Some(([v] + rest, g2))
  }

  /** Every round's directive has the keys of the original. */
  lemma {:induction false} RoundsKeepKeys(task: string, d: Directive, count: nat, entropy: real, g: Rng)
    requires Valid(g) && MutatedRounds(task, d, count, entropy, g).Some?
    ensures forall i :: 0 <= i < count ==>
      SameKeys(d, MutatedRounds(task, d, count, entropy, g).value.0[i].directive)
    decreases count
  {
    if count > 0 {
      var (v, g1) := MutateRound(task, d, entropy, g).value;
      RoundsKeepKeys(task, d, count - 1, entropy, g1);
      var rest := MutatedRounds(task, d, count - 1, entropy, g1).value.0;
      assert MutatedRounds(task, d, count, entropy, g).value.0 == [v] + rest;
      KeysCons(d, v, rest);
    }
  }

  lemma KeysCons(d: Directive, v: TaskVariant, rest: seq<TaskVariant>)
    requires SameKeys(d, v.directive)
    requires forall i :: 0 <= i < |rest| ==> SameKeys(d, rest[i].directive)
    ensures forall i :: 0 <= i < 1 + |rest| ==> SameKeys(d, ([v] + rest)[i].directive)
  {
    forall i | 1 <= i < 1 + |rest|
      ensures SameKeys(d, ([v] + rest)[i].directive)
    {
      assert ([v] + rest)[i] == rest[i - 1];
    }
  }

  /** With entropy 0 every round yields the original pair, up to
      whitespace in the build task. */
  lemma {:induction false} ZeroEntropyRounds(task: string, d: Directive, count: nat, g: Rng)
    requires Valid(g)
    ensures forall i :: 0 <= i < count ==>
      MutatedRounds(task, d, count, 0.0, g).value.0[i] == TaskVariant(JoinWords(Words(task)), d)
    decreases count
  {
    if count > 0 {
      var (v, g1) := MutateRound(task, d, 0.0, g).value;
      ZeroEntropyRounds(task, d, count - 1, g1);
      var rest := MutatedRounds(task, d, count - 1, 0.0, g1).value.0;
      assert MutatedRounds(task, d, count, 0.0, g).value.0 == [v] + rest;
      AllEqualCons(v, rest, TaskVariant(JoinWords(Words(task)), d));
    }
  }

  lemma AllEqualCons<T>(x: T, rest: seq<T>, y: T)
    requires x == y && forall i :: 0 <= i < |rest| ==> rest[i] == y
    ensures forall i :: 0 <= i < 1 + |rest| ==> ([x] + rest)[i] == y
  {
    forall i | 1 <= i < 1 + |rest|
      ensures ([x] + rest)[i] == y
    {
      assert ([x] + rest)[i] == rest[i - 1];
    }
  }

  /** `MutationEngine.exec` with `n_variants` = `n`: the original pair
      first, then `n - 1` mutations. */
  function Exec(task: string, d: Directive, n: int, entropy: real, g: Rng): (r: Option<seq<TaskVariant>>)
    requires Valid(g)
    ensures r.Some? ==> |r.value| == 1 + (if n - 1 < 0 then 0 else n - 1)
    ensures r.Some? ==> r.value[0] == TaskVariant(task, d)
    ensures r.Some? ==> forall i :: 0 <= i < |r.value| ==> SameKeys(d, r.value[i].directive)
    ensures n <= 1 || entropy <= 0.0 || |Words(task)| >= 2 ==> r.Some?
  {
    var count := if n - 1 < 0 then 0 else n - 1;
    match MutatedRounds(task, d, count, entropy, g)
    case None => None
    case Some((rest, _)) =>
      RoundsKeepKeys(task, d, count, entropy, g);
      Some([TaskVariant(task, d)] + rest)
  }

  /** With entropy 0 every variant is the original pair, up to whitespace
      in the build task. */
  lemma ZeroEntropyExec(task: string, d: Directive, n: int, g: Rng, i: nat)
    requires Valid(g)
    ensures Exec(task, d, n, 0.0, g).Some?
    ensures 0 < i < |Exec(task, d, n, 0.0, g).value| ==>
      Exec(task, d, n, 0.0, g).value[i] == TaskVariant(JoinWords(Words(task)), d)
  {
    var count := if n - 1 < 0 then 0 else n - 1;
    var rest := MutatedRounds(task, d, count, 0.0, g).value.0;
    ZeroEntropyRounds(task, d, count, g);
    if 0 < i < |Exec(task, d, n, 0.0, g).value| {
      assert Exec(task, d, n, 0.0, g).value[i] == rest[i - 1];
    }
  }
}
