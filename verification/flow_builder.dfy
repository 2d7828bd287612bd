/** The flow builder node: choosing the build task of the current variant,
    generating code (by an oracle standing for the language model, or the
    placeholder template), recovering the class name from the code, and the
    directive loader. */
module FlowBuilding {
  import opened Base
  import opened Text
  import opened Directives
  import Nodes

  // ---------------------------------------------------------------------
  // prep
  // ---------------------------------------------------------------------

  /** One entry of `shared["variants"]`; either key may be missing. */
  datatype VariantEntry = VariantEntry(task: Option<string>, directive: Option<Directive>)

  /** `FlowBuilderNode.prep`: the build task and directive to build. `None` is the
      IndexError of a negative `variant_idx` reaching past the front of the
      list (Python indexes from the end for negative values). */
  function Prep(buildTask: string, directive: Directive, variants: seq<VariantEntry>, variantIdx: int): (r: Option<(string, Directive)>)
    ensures variants == [] || variantIdx >= |variants| ==> r == Some((buildTask, directive))
    ensures 0 <= variantIdx < |variants| ==>
      r == Some((variants[variantIdx].task.GetOr(buildTask), variants[variantIdx].directive.GetOr(directive)))
    ensures r.None? <==> variants != [] && variantIdx < -|variants|
  {
    if variants == [] || variantIdx >= |variants| then Some((buildTask, directive))
    else if variantIdx < -|variants| then None
    else
      var v := if variantIdx >= 0 then variants[variantIdx] else variants[|variants| + variantIdx];
      Some((v.task.GetOr(buildTask), v.directive.GetOr(directive)))
  }

  // ---------------------------------------------------------------------
  // `re.search(r"class\s+(\w+)\s*\(", code)`
  // ---------------------------------------------------------------------

  /** A non-empty run of word characters. */
  predicate IsIdentifier(w: string) {
    w != [] && forall i :: 0 <= i < |w| ==> IsWordChar(w[i])
  }

  /** The length of the longest prefix of `s` whose characters satisfy
      `p`. */
  function RunOf(s: string, p: char -> bool): (n: nat)
    ensures n <= |s|
    ensures forall i :: 0 <= i < n ==> p(s[i])
    ensures n < |s| ==> !p(s[n])
  {
    if s == [] || !p(s[0]) then 0
    else
      var n := RunOf(s[1..], p);
      assert forall i :: 1 <= i < n + 1 ==> s[i] == s[1..][i - 1];
      n + 1
  }

  /** The pattern anchored at the start of `s`. Each of `\s+`, `\w+` and
      `\s*` must take a maximal run: a shorter one leaves a character that
      the next part of the pattern cannot accept, so backtracking never
      finds another match. */
  function ClassAt(s: string): (r: Option<string>)
    ensures r.Some? ==> IsIdentifier(r.value)
    ensures r.Some? ==> "class" <= s
  {
    if |s| < 5 || s[..5] != "class" then None
    else
      var s1 := s[5..];
      var n1 := RunOf(s1, IsSpace);
      if n1 == 0 then None
      else
        var s2 := s1[n1..];
        var n2 := RunOf(s2, IsWordChar);
        if n2 == 0 then None
        else
          var s3 := s2[n2..];
          var n3 := RunOf(s3, IsSpace);
          if n3 < |s3| && s3[n3] == '(' then Some(s2[..n2]) else None
  }

  /** `_extract_class_name`: the group of the leftmost match, if any. */
  function ExtractClassName(code: string): (r: Option<string>)
    ensures r.Some? ==> IsIdentifier(r.value)
    decreases |code|
  {
    match ClassAt(code)
    case Some(name) => Some(name)
    case None => if code == [] then None else ExtractClassName(code[1..])
  }

  /** The result of `m` at the leftmost position of `code` where it
      gives one: a search that tries every start in turn. */
  function FirstMatch<T>(m: string -> Option<T>, code: string): (r: Option<T>)
    ensures r.None? ==> m(code).None?
    decreases |code|
  {
    match m(code)
    case Some(x) => Some(x)
    case None => if code == [] then None else FirstMatch(m, code[1..])
  }

  /** The search reports the leftmost matching position's result, and
      finds nothing exactly when no position matches. */
  lemma {:induction false} FirstMatchIsLeftmost<T>(m: string -> Option<T>, code: string)
    ensures FirstMatch(m, code).None? <==> forall p :: 0 <= p <= |code| ==> m(code[p..]).None?
    ensures FirstMatch(m, code).Some? ==>
      exists p :: 0 <= p <= |code| && m(code[p..]) == FirstMatch(m, code)
        && forall q :: 0 <= q < p ==> m(code[q..]).None?
    decreases |code|
  {
    assert code[0..] == code;
    if m(code).None? && code != [] {
      var t := code[1..];
      FirstMatchIsLeftmost(m, t);
      if FirstMatch(m, t).None? {
        forall p | 1 <= p <= |code|
          ensures m(code[p..]).None?
        {
          SuffixShift(code, p);
        }
      } else {
        var p :| 0 <= p <= |t| && m(t[p..]) == FirstMatch(m, t)
          && forall q :: 0 <= q < p ==> m(t[q..]).None?;
        SuffixShift(code, p + 1);
        forall q | 1 <= q < p + 1
          ensures m(code[q..]).None?
        {
          SuffixShift(code, q);
        }
      }
    }
  }

  lemma SuffixShift(code: string, p: nat)
    requires 1 <= p <= |code|
    ensures code[p..] == code[1..][p - 1..]
  {
  }

  /** `_extract_class_name` is that search with the pattern anchored at
      each start. */
  lemma {:induction false} ExtractIsFirstMatch(code: string)
    ensures ExtractClassName(code) == FirstMatch(ClassAt, code)
    decreases |code|
  {
    if code != [] {
      ExtractIsFirstMatch(code[1..]);
    }
  }

  /** `re.search` reports the group of the leftmost match, and finds
      nothing exactly when no position matches. */
  lemma ExtractIsLeftmost(code: string)
    ensures ExtractClassName(code).None? <==> forall p :: 0 <= p <= |code| ==> ClassAt(code[p..]).None?
    ensures ExtractClassName(code).Some? ==>
      exists p :: 0 <= p <= |code| && ClassAt(code[p..]) == ExtractClassName(code)
        && forall q :: 0 <= q < p ==> ClassAt(code[q..]).None?
  {
    ExtractIsFirstMatch(code);
    FirstMatchIsLeftmost(ClassAt, code);
  }

  /** No match can start where "class" does not. */
  lemma ExtractStep(s: string)
    requires s != [] && !("class" <= s)
    ensures ExtractClassName(s) == ExtractClassName(s[1..])
  {
  }

  /** No 'c' in `p` is followed by an 'l', and `p` does not end in 'c':
      no match of the pattern starts inside `p`. */
  predicate NoClassStart(p: string) {
    forall i :: 0 <= i < |p| && p[i] == 'c' ==> i + 1 < |p| && p[i + 1] != 'l'
  }

  /** Text in which no "cl" starts is skipped by the search. */
  lemma {:induction false} SkipNoClassStart(p: string, s: string)
    requires NoClassStart(p)
    ensures ExtractClassName(p + s) == ExtractClassName(s)
    decreases |p|
  {
    if p != [] {
      NoClassStartHead(p, s);
      NoClassStartTail(p);
      ExtractStep(p + s);
      SkipNoClassStart(p[1..], s);
    } else {
      assert p + s == s;
    }
  }

  lemma NoClassStartHead(p: string, s: string)
    requires NoClassStart(p) && p != []
    ensures !("class" <= p + s) && (p + s)[1..] == p[1..] + s
  {
    var t := p + s;
    assert t[0] == p[0];
    if p[0] == 'c' {
      assert t[1] == p[1];
    }
  }

  lemma NoClassStartTail(p: string)
    requires NoClassStart(p) && p != []
    ensures NoClassStart(p[1..])
  {
    forall i | 0 <= i < |p[1..]| && p[1..][i] == 'c'
      ensures i + 1 < |p[1..]| && p[1..][i + 1] != 'l'
    {
      assert p[i + 1] == 'c';
    }
  }

  lemma NoClassStartConcat(a: string, b: string)
    requires NoClassStart(a) && NoClassStart(b)
    ensures NoClassStart(a + b)
  {
    forall i | 0 <= i < |a + b| && (a + b)[i] == 'c'
      ensures i + 1 < |a + b| && (a + b)[i + 1] != 'l'
    {
      if i < |a| {
        assert a[i] == 'c';
      } else {
        assert b[i - |a|] == 'c';
      }
    }
  }

  /** A class line starting the text is found. */
  lemma ClassLineFound(name: string, rest: string)
    requires IsIdentifier(name)
    ensures ExtractClassName("class " + name + "(" + rest) == Some(name)
  {
    ClassAtLine(name, rest);
  }

  /** The anchored pattern matches a class line and captures its name. */
  lemma ClassAtLine(name: string, rest: string)
    requires IsIdentifier(name)
    ensures ClassAt("class " + name + "(" + rest) == Some(name)
  {
    ClassLineParts(name, rest);
    ClassLineRuns(name, rest);
    ClassAtSplit("class " + name + "(" + rest, 1, |name|);
  }

  /** The three runs `ClassAt` measures on a class line. */
  lemma ClassLineRuns(name: string, rest: string)
    requires IsIdentifier(name)
    ensures RunOf(" " + (name + ("(" + rest)), IsSpace) == 1
    ensures RunOf(name + ("(" + rest), IsWordChar) == |name|
    ensures RunOf("(" + rest, IsSpace) == 0
  {
    SpaceBeforeName(name, "(" + rest);
    RunOfThenStop(name, "(" + rest, IsWordChar);
    ParenEndsSpaces(rest);
  }

  lemma SpaceBeforeName(name: string, paren: string)
    requires IsIdentifier(name)
    ensures RunOf(" " + (name + paren), IsSpace) == 1
  {
    var tail := name + paren;
    assert tail[0] == name[0];
    RunOfThenStop(" ", tail, IsSpace);
  }

  lemma ParenEndsSpaces(rest: string)
    ensures RunOf("(" + rest, IsSpace) == 0
  {
    var s := "(" + rest;
    assert s[0] == '(';
  }

  /** The slices `ClassAt` takes of a class line. */
  lemma ClassLineParts(name: string, rest: string)
    ensures var s := "class " + name + "(" + rest;
      && |s| >= 5 && s[..5] == "class" && s[5..] == " " + (name + ("(" + rest))
      && s[5..][1..] == name + ("(" + rest)
      && s[5..][1..][..|name|] == name && s[5..][1..][|name|..] == "(" + rest
      && [] + ("(" + rest) == "(" + rest
  {
    var s := "class " + name + "(" + rest;
    assert s == "class" + (" " + (name + ("(" + rest)));
  }

  /** `ClassAt` from the lengths of its three runs. */
  lemma ClassAtSplit(s: string, n1: nat, n2: nat)
    requires |s| >= 5 && s[..5] == "class"
    requires 0 < n1 <= |s[5..]| && RunOf(s[5..], IsSpace) == n1
    requires 0 < n2 <= |s[5..][n1..]| && RunOf(s[5..][n1..], IsWordChar) == n2
    requires RunOf(s[5..][n1..][n2..], IsSpace) == 0
    requires |s[5..][n1..][n2..]| > 0 && s[5..][n1..][n2..][0] == '('
    ensures ClassAt(s) == Some(s[5..][n1..][..n2])
  {
  }

  /** A run of `p` characters followed by one that is not: the run is
      exactly the prefix. */
  lemma RunOfThenStop(w: string, rest: string, p: char -> bool)
    requires forall i :: 0 <= i < |w| ==> p(w[i])
    requires rest != [] && !p(rest[0])
    ensures RunOf(w + rest, p) == |w|
  {
    var s := w + rest;
    assert forall i :: 0 <= i < |w| ==> s[i] == w[i];
    assert s[|w|] == rest[0];
  }

  // ---------------------------------------------------------------------
  // placeholder class name
  // ---------------------------------------------------------------------

  /** `description` is group 2 of `(Node|Flow) that (.+)`: `.` stops at
      the first newline. */
  function LineHead(s: string): (r: string)
    ensures r <= s && '\n' !in r
    ensures |r| < |s| ==> s[|r|] == '\n'
  {
    if s == [] || s[0] == '\n' then []
    else
      var r := LineHead(s[1..]);
      [s[0]] + r
  }

  /** `(Node|Flow) that (.+)` with IGNORECASE, anchored at the start of `s`:
      the matched type text and the description. */
  function NodeThatAt(s: string): (r: Option<(string, string)>)
    ensures r.Some? ==> |r.value.0| == 4 && (Lower(r.value.0) == "node" || Lower(r.value.0) == "flow")
    ensures r.Some? ==> r.value.1 != [] && '\n' !in r.value.1
  {
    if |s| < 11 then None
    else if (Lower(s[..4]) == "node" || Lower(s[..4]) == "flow") && Lower(s[4..10]) == " that " && s[10] != '\n'
    then Some((s[..4], LineHead(s[10..])))
    else None
  }

  /** The leftmost match. */
  function FindNodeThat(s: string): (r: Option<(string, string)>)
    ensures r.Some? ==> |r.value.0| == 4 && (Lower(r.value.0) == "node" || Lower(r.value.0) == "flow")
    ensures r.Some? ==> r.value.1 != [] && '\n' !in r.value.1
    decreases |s|
  {
    match NodeThatAt(s)
    case Some(m) => Some(m)
    case None => if s == [] then None else FindNodeThat(s[1..])
  }

  /** `re.search` of the pattern: the leftmost start where it matches. */
  lemma {:induction false} FindNodeThatIsFirstMatch(s: string)
    ensures FindNodeThat(s) == FirstMatch(NodeThatAt, s)
    decreases |s|
  {
    if s != [] {
      FindNodeThatIsFirstMatch(s[1..]);
    }
  }

  /** The match is the one at the leftmost position where the pattern
      matches, and there is none exactly when it matches nowhere. */
  lemma FindNodeThatIsLeftmost(s: string)
    ensures FindNodeThat(s).None? <==> forall p :: 0 <= p <= |s| ==> NodeThatAt(s[p..]).None?
    ensures FindNodeThat(s).Some? ==>
      exists p :: 0 <= p <= |s| && NodeThatAt(s[p..]) == FindNodeThat(s)
        && forall q :: 0 <= q < p ==> NodeThatAt(s[q..]).None?
  {
    FindNodeThatIsFirstMatch(s);
    FirstMatchIsLeftmost(NodeThatAt, s);
  }

  /** The `\w` runs of `s`, in order. */
  function WordTokens(s: string): (ts: seq<string>)
    ensures forall i :: 0 <= i < |ts| ==> IsIdentifier(ts[i])
    decreases |s|
  {
    if s == [] then []
    else if !IsWordChar(s[0]) then WordTokens(s[1..])
    else
      var n := RunOf(s, IsWordChar);
      [s[..n]] + WordTokens(s[n..])
  }

  /** The word characters of `s`, in order. */
  function WordChars(s: string): (r: string)
    ensures forall i :: 0 <= i < |r| ==> IsWordChar(r[i])
  {
    if s == [] then [] else (if IsWordChar(s[0]) then [s[0]] else []) + WordChars(s[1..])
  }

  function Concat(ts: seq<string>): string {
    if ts == [] then [] else ts[0] + Concat(ts[1..])
  }

  /** `t` occurs in `s` at `p` as a whole `\w` run: no word character
      touches it on either side. */
  predicate RunAt(s: string, t: string, p: nat) {
    p + |t| <= |s| && s[p..p + |t|] == t
    && (p == 0 || !IsWordChar(s[p - 1]))
    && (p + |t| == |s| || !IsWordChar(s[p + |t|]))
  }

  /** `t` occurs somewhere in `s` as a whole `\w` run. */
  ghost predicate IsRun(s: string, t: string) {
    exists p: nat :: RunAt(s, t, p)
  }

  /** A prefix of word characters comes first among the word characters. */
  lemma {:induction false} WordCharsRun(s: string, k: nat)
    requires k <= |s| && forall i :: 0 <= i < k ==> IsWordChar(s[i])
    ensures WordChars(s) == s[..k] + WordChars(s[k..])
    decreases k
  {
    if k == 0 {
      assert s[k..] == s;
    } else {
      WordCharsRun(s[1..], k - 1);
      assert s[1..][k - 1..] == s[k..];
      assert [s[0]] + s[1..][..k - 1] == s[..k];
    }
  }

  /** Read in order, the tokens spell out exactly the word characters of
      `s`: none is lost, added or moved. */
  lemma {:induction false} WordTokensSpell(s: string)
    ensures Concat(WordTokens(s)) == WordChars(s)
    decreases |s|
  {
    if s != [] {
      if !IsWordChar(s[0]) {
        WordTokensSpell(s[1..]);
        assert WordTokens(s) == WordTokens(s[1..]);
        assert WordChars(s) == [] + WordChars(s[1..]) == WordChars(s[1..]);
      } else {
        var n := RunOf(s, IsWordChar);
        WordTokensSpell(s[n..]);
        WordCharsRun(s, n);
        assert WordTokens(s) == [s[..n]] + WordTokens(s[n..]);
      }
    }
  }

  /** A whole run of a suffix that starts after a non-word character is a
      whole run of the full string. */
  lemma ShiftRun(s: string, k: nat, t: string, p: nat)
    requires k <= |s| && (k == 0 || !IsWordChar(s[k - 1]))
    requires RunAt(s[k..], t, p)
    ensures RunAt(s, t, p + k)
  {
    assert s[k..][p..p + |t|] == s[p + k..p + k + |t|];
    if p > 0 {
      assert s[k..][p - 1] == s[p + k - 1];
    }
    if p + |t| < |s[k..]| {
      assert s[k..][p + |t|] == s[p + k + |t|];
    }
  }

  /** A whole run of `s` at or after `k` is a whole run of `s[k..]`. */
  lemma UnshiftRun(s: string, k: nat, t: string, p: nat)
    requires k <= p && RunAt(s, t, p)
    ensures RunAt(s[k..], t, p - k)
  {
    assert s[k..][p - k..p - k + |t|] == s[p..p + |t|];
    if p - k > 0 {
      assert s[k..][p - k - 1] == s[p - 1];
    }
    if p + |t| < |s| {
      assert s[k..][p - k + |t|] == s[p + |t|];
    }
  }

  /** Every token is a whole `\w` run of `s`. */
  lemma {:induction false} WordTokensAreRuns(s: string)
    ensures forall i :: 0 <= i < |WordTokens(s)| ==> IsRun(s, WordTokens(s)[i])
    decreases |s|
  {
    var ts := WordTokens(s);
    if s != [] {
      if !IsWordChar(s[0]) {
        WordTokensAreRuns(s[1..]);
        assert ts == WordTokens(s[1..]);
        forall i | 0 <= i < |ts|
          ensures IsRun(s, ts[i])
        {
          assert IsRun(s[1..], ts[i]);
          var p: nat :| RunAt(s[1..], ts[i], p);
          ShiftRun(s, 1, ts[i], p);
        }
      } else {
        var n := RunOf(s, IsWordChar);
        assert ts == [s[..n]] + WordTokens(s[n..]);
        assert RunAt(s, ts[0], 0) by {
          assert s[0..n] == s[..n];
        }
        if n < |s| {
          assert s[n..][1..] == s[n + 1..];
          assert WordTokens(s[n..]) == WordTokens(s[n + 1..]);
          WordTokensAreRuns(s[n + 1..]);
          forall i | 1 <= i < |ts|
            ensures IsRun(s, ts[i])
          {
            assert ts[i] == WordTokens(s[n + 1..])[i - 1];
            assert IsRun(s[n + 1..], ts[i]);
            var p: nat :| RunAt(s[n + 1..], ts[i], p);
            ShiftRun(s, n + 1, ts[i], p);
          }
        }
      }
    }
  }

  /** `ws[i]` is a whole `\w` run of `s` at `ps[i]`, and each run ends
      before the next one starts: the runs are listed left to right. */
  predicate RunsInOrder(s: string, ws: seq<string>, ps: seq<nat>) {
    AllRunsAt(s, ws, ps) && LeftToRight(ws, ps)
  }

  /** Each `ws[i]` is a whole `\w` run of `s` at `ps[i]`. */
  predicate AllRunsAt(s: string, ws: seq<string>, ps: seq<nat>) {
    |ps| == |ws| && forall i :: 0 <= i < |ws| ==> RunAt(s, ws[i], ps[i])
  }

  /** Each piece ends before the next one starts. */
  predicate LeftToRight(ws: seq<string>, ps: seq<nat>) {
    |ps| == |ws| && forall i, j :: 0 <= i < j < |ws| ==> ps[i] + |ws[i]| < ps[j]
  }

  /** Where each token of `WordTokens(s)` starts. */
  function TokenStarts(s: string): (ps: seq<nat>)
    ensures |ps| == |WordTokens(s)|
    decreases |s|
  {
    if s == [] then []
    else if !IsWordChar(s[0]) then Shift(TokenStarts(s[1..]), 1)
    else
      var n := RunOf(s, IsWordChar);
      if n == |s| then
        assert WordTokens(s[n..]) == [];
        [0]
      else
        assert s[n..][1..] == s[n + 1..];
        assert WordTokens(s[n..]) == WordTokens(s[n + 1..]);
        [0] + Shift(TokenStarts(s[n + 1..]), n + 1)
  }

  /** Runs listed in order in a suffix after a non-word character are
      listed in order in the whole string, once shifted. */
  lemma ShiftRunsInOrder(s: string, k: nat, ws: seq<string>, ps: seq<nat>)
    requires k <= |s| && (k == 0 || !IsWordChar(s[k - 1]))
    requires RunsInOrder(s[k..], ws, ps)
    ensures RunsInOrder(s, ws, Shift(ps, k))
  {
    forall i | 0 <= i < |ws|
      ensures RunAt(s, ws[i], Shift(ps, k)[i])
    {
      ShiftRun(s, k, ws[i], ps[i]);
    }
    ShiftLeftToRight(ws, ps, k);
  }

  lemma ShiftLeftToRight(ws: seq<string>, ps: seq<nat>, k: nat)
    requires LeftToRight(ws, ps)
    ensures LeftToRight(ws, Shift(ps, k))
  {
  }

  /** The tokens are the whole `\w` runs of `s` read left to right. */
  lemma {:induction false} WordTokensInOrder(s: string)
    ensures RunsInOrder(s, WordTokens(s), TokenStarts(s))
    decreases |s|
  {
    if s != [] {
      if !IsWordChar(s[0]) {
        WordTokensInOrder(s[1..]);
        ShiftRunsInOrder(s, 1, WordTokens(s[1..]), TokenStarts(s[1..]));
      } else {
        var n := RunOf(s, IsWordChar);
        if n < |s| {
          WordTokensInOrder(s[n + 1..]);
          HeadTokens(s, n);
          HeadRunAt(s, n);
          HeadRunInOrder(s, n, WordTokens(s[n + 1..]), TokenStarts(s[n + 1..]));
        } else {
          HeadRunAt(s, n);
          assert WordTokens(s[n..]) == [];
        }
      }
    }
  }

  /** The leading `\w` run of `s` is a whole run at 0. */
  lemma HeadRunAt(s: string, n: nat)
    requires s != [] && IsWordChar(s[0]) && n == RunOf(s, IsWordChar)
    ensures RunAt(s, s[..n], 0)
  {
    assert s[0..n] == s[..n];
  }

  /** A whole run at 0 that ends before a non-word character heads the
      runs of what follows that character. */
  lemma HeadRunInOrder(s: string, n: nat, ws: seq<string>, ps: seq<nat>)
    requires n < |s| && !IsWordChar(s[n]) && RunAt(s, s[..n], 0)
    requires RunsInOrder(s[n + 1..], ws, ps)
    ensures RunsInOrder(s, [s[..n]] + ws, [0] + Shift(ps, n + 1))
  {
    ShiftRunsInOrder(s, n + 1, ws, ps);
    ConsRunsInOrder(s, s[..n], 0, ws, Shift(ps, n + 1));
  }

  /** After a leading `\w` run and the character that ends it, the tokens
      and their starts continue with those of the rest. */
  lemma HeadTokens(s: string, n: nat)
    requires s != [] && IsWordChar(s[0]) && n == RunOf(s, IsWordChar) && n < |s|
    ensures WordTokens(s) == [s[..n]] + WordTokens(s[n + 1..])
    ensures TokenStarts(s) == [0] + Shift(TokenStarts(s[n + 1..]), n + 1)
  {
    assert s[n..][1..] == s[n + 1..];
    assert WordTokens(s[n..]) == WordTokens(s[n + 1..]);
  }

  /** A run that ends before the first of some ordered runs heads them. */
  lemma ConsRunsInOrder(s: string, w: string, p: nat, ws: seq<string>, ps: seq<nat>)
    requires RunAt(s, w, p) && RunsInOrder(s, ws, ps)
    requires forall j :: 0 <= j < |ps| ==> p + |w| < ps[j]
    ensures RunsInOrder(s, [w] + ws, [p] + ps)
  {
    ConsRunsAt(s, w, p, ws, ps);
    ConsLeftToRight(w, p, ws, ps);
  }

  lemma ConsRunsAt(s: string, w: string, p: nat, ws: seq<string>, ps: seq<nat>)
    requires RunAt(s, w, p) && AllRunsAt(s, ws, ps)
    ensures AllRunsAt(s, [w] + ws, [p] + ps)
  {
    var vs, qs := [w] + ws, [p] + ps;
    forall i | 0 <= i < |vs|
      ensures RunAt(s, vs[i], qs[i])
    {
      if i > 0 {
        assert vs[i] == ws[i - 1] && qs[i] == ps[i - 1];
      }
    }
  }

  lemma ConsLeftToRight(w: string, p: nat, ws: seq<string>, ps: seq<nat>)
    requires LeftToRight(ws, ps)
    requires forall j :: 0 <= j < |ps| ==> p + |w| < ps[j]
    ensures LeftToRight([w] + ws, [p] + ps)
  {
    var vs, qs := [w] + ws, [p] + ps;
    forall i, j | 0 <= i < j < |vs|
      ensures qs[i] + |vs[i]| < qs[j]
    {
      assert qs[j] == ps[j - 1];
      if i > 0 {
        assert vs[i] == ws[i - 1] && qs[i] == ps[i - 1];
      }
    }
  }

  /** Every whole `\w` run of `s` is a token. */
  lemma {:induction false} RunsAreWordTokens(s: string, t: string, p: nat)
    requires t != [] && AllWordChars(t)
    requires RunAt(s, t, p)
    ensures t in WordTokens(s)
    decreases |s|
  {
    assert IsWordChar(s[p]) by {
      assert s[p] == t[0];
    }
    if !IsWordChar(s[0]) {
      SkipTokens(s);
      UnshiftRun(s, 1, t, p);
      RunsAreWordTokens(s[1..], t, p - 1);
    } else {
      var n := RunOf(s, IsWordChar);
      if p == 0 {
        HeadRunIsFirstToken(s, t, n);
      } else {
        RunAfterHead(s, t, p, n);
        UnshiftRun(s, n + 1, t, p);
        RunsAreWordTokens(s[n + 1..], t, p - n - 1);
        TokenAfterHead(s, n, t);
      }
    }
  }

  /** A token of what follows the leading run is a token of `s`. */
  lemma TokenAfterHead(s: string, n: nat, t: string)
    requires s != [] && IsWordChar(s[0]) && n == RunOf(s, IsWordChar) && n < |s|
    requires t in WordTokens(s[n + 1..])
    ensures t in WordTokens(s)
  {
    HeadTokens(s, n);
    var ws := WordTokens(s[n + 1..]);
    assert ([s[..n]] + ws)[1..] == ws;
  }

  /** A leading non-word character adds no token. */
  lemma SkipTokens(s: string)
    requires s != [] && !IsWordChar(s[0])
    ensures WordTokens(s) == WordTokens(s[1..])
  {
  }

  /** A whole run at 0 made of word characters is the leading run, which is
      the first token. */
  lemma HeadRunIsFirstToken(s: string, t: string, n: nat)
    requires t != [] && AllWordChars(t)
    requires RunAt(s, t, 0) && n == RunOf(s, IsWordChar)
    ensures t in WordTokens(s)
  {
    assert s[0] == t[0];
    assert WordTokens(s) == [s[..n]] + WordTokens(s[n..]);
    forall i | 0 <= i < |t|
      ensures IsWordChar(s[i])
    {
      assert s[i] == s[0..|t|][i];
    }
    assert n == |t|;
    assert t == s[..n];
  }

  /** A whole run after position 0 starts past the leading run and the
      character that ends it. */
  lemma RunAfterHead(s: string, t: string, p: nat, n: nat)
    requires RunAt(s, t, p) && 0 < p < |s| && n == RunOf(s, IsWordChar)
    requires IsWordChar(s[p])
    ensures n + 1 <= p && n < |s|
  {
  }

  predicate AllWordChars(w: string) {
    forall i :: 0 <= i < |w| ==> IsWordChar(w[i])
  }

  predicate AllLetters(w: string) {
    forall i :: 0 <= i < |w| ==> IsLetter(w[i])
  }

  /** `re.findall(r'\b[A-Za-z]+\b', description)`: a letter run bounded by
      word boundaries on both sides is a whole `\w` run made of letters. */
  function LetterWords(s: string): (ws: seq<string>)
    ensures forall i :: 0 <= i < |ws| ==> ws[i] != [] && AllLetters(ws[i])
  {
    Letters(WordTokens(s))
  }

  /** The words found are exactly the whole `\w` runs of `s` made of
      ASCII letters. */
  lemma LetterWordsExact(s: string)
    ensures forall i :: 0 <= i < |LetterWords(s)| ==> IsRun(s, LetterWords(s)[i])
    ensures forall t: string, p: nat :: t != [] && AllLetters(t) && RunAt(s, t, p) ==> t in LetterWords(s)
  {
    var ts := WordTokens(s);
    var ws := LetterWords(s);
    WordTokensAreRuns(s);
    forall i | 0 <= i < |ws|
      ensures IsRun(s, ws[i])
    {
      assert ws[i] in ts;
      var j :| 0 <= j < |ts| && ts[j] == ws[i];
      assert IsRun(s, ts[j]);
    }
    forall t: string, p: nat | t != [] && AllLetters(t) && RunAt(s, t, p)
      ensures t in ws
    {
      LettersAreWordChars(t);
      RunsAreWordTokens(s, t, p);
    }
  }

  function Letters(ts: seq<string>): (ws: seq<string>)
    requires forall i :: 0 <= i < |ts| ==> ts[i] != []
    ensures forall i :: 0 <= i < |ws| ==> ws[i] != [] && AllLetters(ws[i])
    ensures forall w :: w in ws <==> w in ts && AllLetters(w)
  {
    if ts == [] then []
    else
      var rest := Letters(ts[1..]);
      if AllLetters(ts[0]) then [ts[0]] + rest else rest
  }

  /** The starts of the tokens `Letters` keeps. */
  function LetterStarts(ts: seq<string>, ps: seq<nat>): (qs: seq<nat>)
    requires |ps| == |ts| && forall i :: 0 <= i < |ts| ==> ts[i] != []
    ensures |qs| == |Letters(ts)|
  {
    if ts == [] then []
    else
      var rest := LetterStarts(ts[1..], ps[1..]);
      if AllLetters(ts[0]) then [ps[0]] + rest else rest
  }

  /** Keeping the all-letter runs keeps them in order. */
  lemma {:induction false} LettersInOrder(s: string, ts: seq<string>, ps: seq<nat>)
    requires forall i :: 0 <= i < |ts| ==> ts[i] != []
    requires RunsInOrder(s, ts, ps)
    ensures RunsInOrder(s, Letters(ts), LetterStarts(ts, ps))
    decreases |ts|
  {
    if ts != [] {
      var ts', ps' := ts[1..], ps[1..];
      assert RunsInOrder(s, ts', ps') by {
        forall i, j | 0 <= i < j < |ts'|
          ensures ps'[i] + |ts'[i]| < ps'[j]
        {
          assert ps'[i] == ps[i + 1] && ps'[j] == ps[j + 1] && ts'[i] == ts[i + 1];
        }
      }
      LettersInOrder(s, ts', ps');
      if AllLetters(ts[0]) {
        var qs := LetterStarts(ts', ps');
        var ws := Letters(ts');
        forall j | 0 <= j < |qs|
          ensures ps[0] + |ts[0]| < qs[j]
        {
          LetterStartsFrom(ts', ps', j);
        }
        ConsRunsInOrder(s, ts[0], ps[0], ws, qs);
      }
    }
  }

  /** Every kept start is one of the original starts. */
  lemma {:induction false} LetterStartsFrom(ts: seq<string>, ps: seq<nat>, j: nat)
    requires |ps| == |ts| && forall i :: 0 <= i < |ts| ==> ts[i] != []
    requires j < |LetterStarts(ts, ps)|
    ensures exists i :: 0 <= i < |ps| && LetterStarts(ts, ps)[j] == ps[i]
    decreases |ts|
  {
    var rest := LetterStarts(ts[1..], ps[1..]);
    if AllLetters(ts[0]) && j == 0 {
      assert LetterStarts(ts, ps)[0] == ps[0];
    } else {
      var j' := if AllLetters(ts[0]) then j - 1 else j;
      assert LetterStarts(ts, ps)[j] == rest[j'];
      LetterStartsFrom(ts[1..], ps[1..], j');
      var i :| 0 <= i < |ps[1..]| && rest[j'] == ps[1..][i];
      assert ps[1..][i] == ps[i + 1];
    }
  }

  /** `findall` reports the words left to right: each at its own start,
      each ending before the next begins. */
  lemma LetterWordsInOrder(s: string)
    ensures RunsInOrder(s, LetterWords(s), LetterStarts(WordTokens(s), TokenStarts(s)))
  {
    WordTokensInOrder(s);
    LettersInOrder(s, WordTokens(s), TokenStarts(s));
  }

  /** `str.capitalize` on a word of ASCII letters. */
  function Capitalize(w: string): (r: string)
    requires w != [] && AllLetters(w)
    ensures |r| == |w| && IsUpper(r[0])
    ensures forall i :: 1 <= i < |r| ==> IsLower(r[i])
    ensures Lower(r) == Lower(w)
  {
    [UpperChar(w[0])] + Lower(w[1..])
  }

  /** `"".join(w.capitalize() for w in words)`. */
  function JoinCapitalized(ws: seq<string>): (r: string)
    requires forall i :: 0 <= i < |ws| ==> ws[i] != [] && AllLetters(ws[i])
    ensures AllLetters(r)
    ensures |r| >= |ws|
  {
    if ws == [] then [] else Capitalize(ws[0]) + JoinCapitalized(ws[1..])
  }

  /** Capitalizing changes only case: lower-cased, the name is the words
      run together, and it starts with a capital. */
  lemma {:induction false} JoinCapitalizedLower(ws: seq<string>)
    requires forall i :: 0 <= i < |ws| ==> ws[i] != [] && AllLetters(ws[i])
    ensures Lower(JoinCapitalized(ws)) == Lower(Concat(ws))
    ensures ws != [] ==> IsUpper(JoinCapitalized(ws)[0])
  {
    if ws != [] {
      JoinCapitalizedLower(ws[1..]);
      var c := Capitalize(ws[0]);
      var rest := JoinCapitalized(ws[1..]);
      LowerConcat(c, rest);
      LowerConcat(ws[0], Concat(ws[1..]));
    }
  }

  lemma LowerConcat(a: string, b: string)
    ensures Lower(a + b) == Lower(a) + Lower(b)
  {
    assert forall i :: 0 <= i < |a + b| ==> Lower(a + b)[i] == (Lower(a) + Lower(b))[i];
  }

  const DefaultClassName := "CustomNode"
  const DefaultDescription := "performs a custom operation"

  /** The class name and description `_generate_placeholder_code` derives
      from the build task. */
  function PlaceholderName(task: string): (r: (string, string))
    ensures IsIdentifier(r.0) && AllLetters(r.0) && |r.0| >= 4
    ensures FindNodeThat(task).None? ==> r == (DefaultClassName, DefaultDescription)
    ensures FindNodeThat(task).Some? ==> r.1 == FindNodeThat(task).value.1
    ensures FindNodeThat(task).Some? && LetterWords(FindNodeThat(task).value.1) != [] ==>
      FindNodeThat(task).value.0 <= r.0[|r.0| - 4..] && Lower(r.0[|r.0| - 4..]) in {"node", "flow"}
    ensures FindNodeThat(task).Some? && LetterWords(FindNodeThat(task).value.1) == [] ==>
      r.0 == DefaultClassName
    ensures FindNodeThat(task).Some? && LetterWords(FindNodeThat(task).value.1) != [] ==>
      (var words := LetterWords(FindNodeThat(task).value.1);
       PrefixWords(words, TakePy(words, 3));
       r.0 == JoinCapitalized(TakePy(words, 3)) + FindNodeThat(task).value.0)
  {
    match FindNodeThat(task)
    case None =>
      DefaultNameShape();
      (DefaultClassName, DefaultDescription)
    case Some((componentType, description)) =>
      var words := LetterWords(description);
      if words == [] then
        DefaultNameShape();
        (DefaultClassName, description)
      else
        var first := TakePy(words, 3);
        PrefixWords(words, first);
        var name := JoinCapitalized(first) + componentType;
        NameShape(JoinCapitalized(first), componentType);
        (name, description)
  }

  lemma DefaultNameShape()
    ensures IsIdentifier(DefaultClassName) && AllLetters(DefaultClassName) && |DefaultClassName| >= 4
  {
    LettersAreWordChars(DefaultClassName);
  }

  lemma PrefixWords(words: seq<string>, first: seq<string>)
    requires forall i :: 0 <= i < |words| ==> words[i] != [] && AllLetters(words[i])
    requires first <= words
    ensures forall i :: 0 <= i < |first| ==> first[i] != [] && AllLetters(first[i])
  {
    forall i | 0 <= i < |first|
      ensures first[i] != [] && AllLetters(first[i])
    {
      assert first[i] == words[i];
    }
  }

  /** Letters followed by "Node" or "Flow" in any case make a name of
      letters that ends in that word. */
  lemma NameShape(prefix: string, componentType: string)
    requires AllLetters(prefix)
    requires |componentType| == 4 && (Lower(componentType) == "node" || Lower(componentType) == "flow")
    ensures var name := prefix + componentType;
      && IsIdentifier(name) && AllLetters(name) && |name| >= 4
      && name[|name| - 4..] == componentType
  {
    forall i | 0 <= i < 4
      ensures IsLetter(componentType[i])
    {
      assert LowerChar(componentType[i]) == Lower(componentType)[i];
    }
    var name := prefix + componentType;
    forall i | 0 <= i < |name|
      ensures IsLetter(name[i])
    {
      if i < |prefix| {
        assert name[i] == prefix[i];
      } else {
        assert name[i] == componentType[i - |prefix|];
      }
    }
    assert name[|name| - 4..] == componentType;
    LettersAreWordChars(name);
  }

  lemma LettersAreWordChars(w: string)
    requires AllLetters(w)
    ensures forall i :: 0 <= i < |w| ==> IsWordChar(w[i])
  {
  }

  /** The start of the placeholder module, before its class line, cut
      around its one letter 'c' (in "Dict"), which starts no match. */
  const CodeHead := "import logging\n" + "from typing import Di" + "c" + "t, Any, Optional\n" + "\n"
    + "from nodes.base_node import Node\n" + "\n"

  /** The placeholder module: its header, the class line, and the class
      docstring naming the build task. The method bodies that follow are fixed
      text apart from the class name, and are not part of this model. */
  function PlaceholderCode(task: string): (code: string)
    ensures CodeHead <= code
  {
    var (name, description) := PlaceholderName(task);
    CodeHead + ("class " + name + "(" + ClassBody(name, description, task))
  }

  /** The text after `class <name>(`: the base class and the docstring. */
  function ClassBody(name: string, description: string, task: string): string {
    "Node):\n    \"\"\"\n    " + name + " " + description
      + ".\n    \n    Built by Hephaestus for task: " + task + "\n    \"\"\"\n"
  }

  /** No match of the class pattern starts in the placeholder header. */
  lemma HeadHasNoClassStart()
    ensures NoClassStart(CodeHead)
  {
    var a := "import logging\n";
    var b := "from typing import Di";
    var c := "c" + "t, Any, Optional\n";
    var d := "\n" + "from nodes.base_node import Node\n" + "\n";
    HeadPieces();
    NoClassStartConcat(a, b);
    NoClassStartConcat(a + b, c);
    NoClassStartConcat(a + b + c, d);
    assert CodeHead == a + b + c + d;
  }

  lemma HeadPieces()
    ensures NoClassStart("import logging\n")
    ensures NoClassStart("from typing import Di")
    ensures NoClassStart("c" + "t, Any, Optional\n")
    ensures NoClassStart("\n" + "from nodes.base_node import Node\n" + "\n")
  {
    NoCNoClassStart("import logging\n");
    NoCNoClassStart("from typing import Di");
    CtNoClassStart("t, Any, Optional\n");
    NoCNoClassStart("\n" + "from nodes.base_node import Node\n" + "\n");
  }

  /** Text without a 'c' starts no match. */
  lemma NoCNoClassStart(s: string)
    requires forall i :: 0 <= i < |s| ==> s[i] != 'c'
    ensures NoClassStart(s)
  {
  }

  /** Neither does "c" followed by 't' and text without a 'c'. */
  lemma CtNoClassStart(s: string)
    requires s != [] && s[0] == 't'
    requires forall i :: 0 <= i < |s| ==> s[i] != 'c'
    ensures NoClassStart("c" + s)
  {
    var t := "c" + s;
    forall i | 0 < i < |t|
      ensures t[i] != 'c'
    {
      assert t[i] == s[i - 1];
    }
    assert t[1] == 't';
  }

  /** The class name recovered from the placeholder code is the one it was
      generated with. */
  lemma PlaceholderRoundTrip(task: string)
    ensures ExtractClassName(PlaceholderCode(task)) == Some(PlaceholderName(task).0)
  {
    var (name, description) := PlaceholderName(task);
    var line := "class " + name + "(" + ClassBody(name, description, task);
    HeadHasNoClassStart();
    SkipNoClassStart(CodeHead, line);
    ClassLineFound(name, ClassBody(name, description, task));
  }

  // ---------------------------------------------------------------------
  // exec and post
  // ---------------------------------------------------------------------

  /** Whether the build task asks for a Flow: "flow" occurs in the lowercased
      task. */
  function IsFlowTask(task: string): (b: bool)
    ensures b <==> IsSubstring("flow", Lower(task))
  {
    Contains(Lower(task), "flow")
  }

  /** `FlowBuilderNode.exec`: with both a language model and a template
      loader, the model's code (an oracle that may raise); otherwise, or
      when it raises an `Exception`, the placeholder. Any other exception
      leaves `exec` through its `except Exception`. */
  function Exec(task: string, hasModel: bool, hasTemplates: bool, generated: Nodes.Attempt<string>): (code: Nodes.Attempt<string>)
    ensures code.Failed? <==> hasModel && hasTemplates && generated.Failed? && !generated.exc.IsError()
    ensures code.Failed? ==> code.exc == generated.exc
    ensures !(hasModel && hasTemplates) || (generated.Failed? && generated.exc.IsError()) ==>
      code == Nodes.Returned(PlaceholderCode(task))
    ensures hasModel && hasTemplates && generated.Returned? ==> code == generated
  {
    if hasModel && hasTemplates then
      match generated
      case Returned(c) => Nodes.Returned(c)
      case Failed(e) => if e.IsError() then Nodes.Returned(PlaceholderCode(task)) else Nodes.Failed(e)
    else Nodes.Returned(PlaceholderCode(task))
  }

  /** What `FlowBuilderNode.post` writes into the shared store. */
  datatype BuilderPost = BuilderPost(code: string, className: Option<string>, variantIdx: int, filePath: Option<string>, action: Label)

  /** `FlowBuilderNode.post`: `variantIdx` is `params["variant_idx"]` if
      present, and `writeOk` whether saving to `savePath` succeeded. */
  function Post(code: string, variantIdx: Option<int>, savePath: Option<string>, writeOk: bool): (p: BuilderPost)
    ensures p.code == code && p.action == DefaultLabel
    ensures p.className == ExtractClassName(code)
    ensures p.variantIdx == variantIdx.GetOr(0)
    ensures p.filePath.Some? <==> Truthy(savePath) && writeOk
    ensures p.filePath.Some? ==> p.filePath == savePath
  {
    var path := if Truthy(savePath) && writeOk then savePath else None;
    BuilderPost(code, ExtractClassName(code), variantIdx.GetOr(0), path, DefaultLabel)
  }

  /** Building without a model always yields a class name, the one the
      placeholder was generated with. */
  lemma PlaceholderBuildNamesClass(task: string, variantIdx: Option<int>, savePath: Option<string>, writeOk: bool, generated: Nodes.Attempt<string>)
    ensures Exec(task, false, false, generated).Returned?
    ensures Post(Exec(task, false, false, generated).value, variantIdx, savePath, writeOk).className == Some(PlaceholderName(task).0)
  {
    PlaceholderRoundTrip(task);
  }

  // ---------------------------------------------------------------------
  // DirectiveLoader
  // ---------------------------------------------------------------------

  /** `DirectiveLoader.exec` then `post`: the stored directive and action. */
  function LoadDirective(task: string): (r: (Directive, Label))
    ensures r.1 == DefaultLabel
    ensures r.0.goal == Some(DefaultGoal) && r.0.rewardCriteria == Some(DefaultCriteria)
    ensures r.0.constraints == Some(Constraints(Some(200), Some(true), None, None, None))
  {
    (DefaultDirective, DefaultLabel)
  }

  /** The loader ignores the build task. */
  lemma LoaderIgnoresTask(t1: string, t2: string)
    ensures LoadDirective(t1) == LoadDirective(t2)
  {
  }
}
