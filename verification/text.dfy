/** String operations the build loop relies on, with Python's meaning:
    `str.strip()`, `str.split("\n")`, `str.split()`, `" ".join(...)`,
    `str.lower()`, and `needle in haystack`. */
module Text {

  /** Python's `str.isspace()` for one character. */
  predicate IsSpace(c: char) {
    c == ' ' || ('\t' <= c <= '\r') || ('\U{1C}' <= c <= '\U{1F}')
    || c == '\U{85}' || c == '\U{A0}' || c == '\U{1680}'
    || ('\U{2000}' <= c <= '\U{200A}') || c == '\U{2028}' || c == '\U{2029}'
    || c == '\U{202F}' || c == '\U{205F}' || c == '\U{3000}'
  }

  predicate NoSpace(s: string) {
    forall i :: 0 <= i < |s| ==> !IsSpace(s[i])
  }

  // ---------------------------------------------------------------------
  // strip
  // ---------------------------------------------------------------------

  /** The number of leading whitespace characters of `s[from..]`. */
  function StartFrom(s: string, from: nat): (lo: nat)
    requires from <= |s|
    ensures from <= lo <= |s|
    ensures forall k :: from <= k < lo ==> IsSpace(s[k])
    ensures lo == |s| || !IsSpace(s[lo])
    decreases |s| - from
  {
    if from < |s| && IsSpace(s[from]) then StartFrom(s, from + 1) else from
  }

  /** The end of `s[lo..hi]` once its trailing whitespace is dropped. */
  function EndFrom(s: string, lo: nat, hi: nat): (end: nat)
    requires lo <= hi <= |s|
    ensures lo <= end <= hi
    ensures forall k :: end <= k < hi ==> IsSpace(s[k])
    ensures end == lo || !IsSpace(s[end - 1])
    decreases hi
  {
    if lo < hi && IsSpace(s[hi - 1]) then EndFrom(s, lo, hi - 1) else hi
  }

  /** `s.strip()`: `s` without its leading and trailing whitespace. */
  function Strip(s: string): (r: string)
    ensures exists lo, hi :: 0 <= lo <= hi <= |s| && r == s[lo..hi] && Stripped(s, lo, hi)
    ensures r == [] || (!IsSpace(r[0]) && !IsSpace(r[|r| - 1]))
  {
    var lo := StartFrom(s, 0);
    var hi := EndFrom(s, lo, |s|);
    assert Stripped(s, lo, hi);
    s[lo..hi]
  }

  /** Everything of `s` outside `s[lo..hi]` is whitespace. */
  predicate Stripped(s: string, lo: nat, hi: nat)
    requires lo <= hi <= |s|
  {
    (forall k :: 0 <= k < lo ==> IsSpace(s[k]))
    && (forall k :: hi <= k < |s| ==> IsSpace(s[k]))
  }

  // ---------------------------------------------------------------------
  // split on one separator, and its inverse
  // ---------------------------------------------------------------------

  function Count(s: string, c: char): nat {
    if s == [] then 0 else (if s[0] == c then 1 else 0) + Count(s[1..], c)
  }

  /** `s.split(c)` for a one-character separator: the pieces between the
      separators, empty pieces included. */
  function SplitOn(s: string, c: char): (r: seq<string>)
    ensures |r| >= 1
    decreases |s|
  {
    if s == [] then [""]
    else
      var rest := SplitOn(s[1..], c);
      if s[0] == c then [""] + rest
      else [[s[0]] + rest[0]] + rest[1..]
  }

  /** `c.join(pieces)`. */
  function JoinOn(pieces: seq<string>, c: char): string
    decreases |pieces|
  {
    if pieces == [] then ""
    else if |pieces| == 1 then pieces[0]
    else pieces[0] + [c] + JoinOn(pieces[1..], c)
  }

  /** Splitting yields one more piece than there are separators, no piece
      holds the separator, and joining the pieces gives the string back. */
  lemma SplitOnProperties(s: string, c: char)
    ensures |SplitOn(s, c)| == Count(s, c) + 1
    ensures forall i :: 0 <= i < |SplitOn(s, c)| ==> c !in SplitOn(s, c)[i]
    ensures JoinOn(SplitOn(s, c), c) == s
  {
    SplitOnCount(s, c);
    SplitOnPiecesClean(s, c);
    SplitOnJoins(s, c);
  }

  lemma {:induction false} SplitOnCount(s: string, c: char)
    ensures |SplitOn(s, c)| == Count(s, c) + 1
    decreases |s|
  {
    if s != [] {
      SplitOnCount(s[1..], c);
    }
  }

  lemma {:induction false} SplitOnPiecesClean(s: string, c: char)
    ensures forall i :: 0 <= i < |SplitOn(s, c)| ==> c !in SplitOn(s, c)[i]
    decreases |s|
  {
    if s != [] {
      SplitOnPiecesClean(s[1..], c);
      var rest := SplitOn(s[1..], c);
      var r := SplitOn(s, c);
      if s[0] == c {
        assert r == [""] + rest;
        forall i | 0 < i < |r|
          ensures c !in r[i]
        {
          assert r[i] == rest[i - 1];
        }
      } else {
        assert r == [[s[0]] + rest[0]] + rest[1..];
        forall i | 0 < i < |r|
          ensures c !in r[i]
        {
          assert r[i] == rest[i];
        }
      }
    }
  }

  lemma {:induction false} SplitOnJoins(s: string, c: char)
    ensures JoinOn(SplitOn(s, c), c) == s
    decreases |s|
  {
    if s != [] {
      SplitOnJoins(s[1..], c);
      var rest := SplitOn(s[1..], c);
      if s[0] == c {
        JoinOnEmptyHead(rest, c);
      } else {
        JoinOnGrowHead(s[0], rest, c);
      }
      assert s == [s[0]] + s[1..];
    }
  }

  /** A leading empty piece joins to a leading separator. */
  lemma JoinOnEmptyHead(rest: seq<string>, c: char)
    requires |rest| >= 1
    ensures JoinOn([""] + rest, c) == [c] + JoinOn(rest, c)
  {
    assert ([""] + rest)[1..] == rest;
  }

  /** A character put in front of the first piece is put in front of the
      joined string. */
  lemma JoinOnGrowHead(x: char, rest: seq<string>, c: char)
    requires |rest| >= 1
    ensures JoinOn([[x] + rest[0]] + rest[1..], c) == [x] + JoinOn(rest, c)
  {
    var r := [[x] + rest[0]] + rest[1..];
    if |rest| > 1 {
      assert r[1..] == rest[1..];
      assert JoinOn(r, c) == ([x] + rest[0]) + [c] + JoinOn(rest[1..], c);
    }
  }

  // ---------------------------------------------------------------------
  // split on whitespace, and joining with one space
  // ---------------------------------------------------------------------

  /** `s` without its leading whitespace. */
  function DropSpaces(s: string): (r: string)
    ensures |r| <= |s|
    ensures r == [] || !IsSpace(r[0])
    decreases |s|
  {
    if s != [] && IsSpace(s[0]) then DropSpaces(s[1..]) else s
  }

  /** The longest prefix of `s` without whitespace. */
  function TakeWord(s: string): (w: string)
    ensures w <= s && NoSpace(w)
    ensures |w| < |s| ==> IsSpace(s[|w|])
    decreases |s|
  {
    if s != [] && !IsSpace(s[0]) then [s[0]] + TakeWord(s[1..]) else []
  }

  /** `s.split()`: the maximal runs of non-whitespace characters. */
  function Words(s: string): (ws: seq<string>)
    ensures forall i :: 0 <= i < |ws| ==> ws[i] != [] && NoSpace(ws[i])
    decreases |s|
  {
    var t := DropSpaces(s);
    if t == [] then []
    else
      var w := TakeWord(t);
      [w] + Words(t[|w|..])
  }

  /** `" ".join(ws)`. */
  function JoinWords(ws: seq<string>): string {
    JoinOn(ws, ' ')
  }

  lemma {:induction false} TakeWordOfJoin(w: string, rest: string)
    requires NoSpace(w)
    requires rest == [] || IsSpace(rest[0])
    ensures TakeWord(w + rest) == w
    decreases |w|
  {
    if w != [] {
      assert (w + rest)[1..] == w[1..] + rest;
      TakeWordOfJoin(w[1..], rest);
    } else {
      assert w + rest == rest;
    }
  }

  /** A word followed by whitespace (or nothing) is the first word. */
  lemma WordsCons(w: string, rest: string)
    requires w != [] && NoSpace(w)
    requires rest == [] || IsSpace(rest[0])
    ensures Words(w + rest) == [w] + Words(rest)
  {
    var s := w + rest;
    assert DropSpaces(s) == s;
    TakeWordOfJoin(w, rest);
    assert s[|w|..] == rest;
  }

  lemma LeadingSpaceIgnored(c: char, j: string)
    requires IsSpace(c)
    ensures Words([c] + j) == Words(j)
  {
    assert ([c] + j)[1..] == j;
    assert DropSpaces([c] + j) == DropSpaces(j);
  }

  lemma WordsOfSingle(w: string)
    requires w != [] && NoSpace(w)
    ensures Words(JoinWords([w])) == [w]
  {
    WordsCons(w, []);
    assert w + [] == w;
  }

  lemma WordsOfJoinStep(w: string, tail: seq<string>)
    requires w != [] && NoSpace(w) && tail != []
    requires Words(JoinWords(tail)) == tail
    ensures Words(JoinWords([w] + tail)) == [w] + tail
  {
    var j := JoinWords(tail);
    var ws := [w] + tail;
    assert ws[0] == w && ws[1..] == tail && |ws| >= 2;
    assert JoinOn(ws, ' ') == w + [' '] + JoinOn(tail, ' ');
    assert w + [' '] + j == w + ([' '] + j);
    WordsCons(w, [' '] + j);
    LeadingSpaceIgnored(' ', j);
  }

  /** Splitting a space-joined list of non-empty, whitespace-free words
      gives the words back. */
  lemma {:induction false} WordsOfJoin(ws: seq<string>)
    requires forall i :: 0 <= i < |ws| ==> ws[i] != [] && NoSpace(ws[i])
    ensures Words(JoinWords(ws)) == ws
    decreases |ws|
  {
    if ws == [] {
    } else if |ws| == 1 {
      WordsOfSingle(ws[0]);
      assert ws == [ws[0]];
    } else {
      var w, tail := ws[0], ws[1..];
      assert ws == [w] + tail;
      WordsOfJoin(tail);
      WordsOfJoinStep(w, tail);
    }
  }

  /** `" ".join(s.split())` collapses whitespace but keeps the words. */
  lemma NormaliseKeepsWords(s: string)
    ensures Words(JoinWords(Words(s))) == Words(s)
  {
    WordsOfJoin(Words(s));
  }

  // ---------------------------------------------------------------------
  // character classes, lower case and substrings
  // ---------------------------------------------------------------------

  predicate IsUpper(c: char) { 'A' <= c <= 'Z' }
  predicate IsLower(c: char) { 'a' <= c <= 'z' }
  predicate IsLetter(c: char) { IsUpper(c) || IsLower(c) }
  predicate IsDigit(c: char) { '0' <= c <= '9' }

  /** The regular-expression class `\w`, restricted to ASCII. */
  predicate IsWordChar(c: char) { IsLetter(c) || IsDigit(c) || c == '_' }

  function LowerChar(c: char): char {
    if IsUpper(c) then (c as int + 32) as char else c
  }

  function UpperChar(c: char): char {
    if IsLower(c) then (c as int - 32) as char else c
  }

  /** `s.lower()` on ASCII letters. */
  function Lower(s: string): (r: string)
    ensures |r| == |s| && forall i :: 0 <= i < |s| ==> r[i] == LowerChar(s[i])
  {
    seq(|s|, i requires 0 <= i < |s| => LowerChar(s[i]))
  }

  /** `needle in haystack`. */
  predicate IsSubstring(needle: string, haystack: string) {
    exists i, j :: 0 <= i <= j <= |haystack| && haystack[i..j] == needle
  }

  /** A left-to-right search for `needle`. */
  function Contains(haystack: string, needle: string): (b: bool)
    ensures b <==> IsSubstring(needle, haystack)
    decreases |haystack|
  {
    if |needle| > |haystack| then
      assert !IsSubstring(needle, haystack);
      false
    else if haystack[..|needle|] == needle then
      assert haystack[0..|needle|] == needle;
      true
    else
      var b := Contains(haystack[1..], needle);
      if b then
        var i, j :| 0 <= i <= j <= |haystack[1..]| && haystack[1..][i..j] == needle;
        assert haystack[i + 1..j + 1] == needle;
        true
      else
        assert !IsSubstring(needle, haystack) by {
          forall i, j | 0 <= i <= j <= |haystack|
            ensures haystack[i..j] != needle
          {
            if i > 0 {
              var tail := haystack[1..];
              assert forall k :: 0 <= k < j - i ==> tail[i - 1..j - 1][k] == haystack[i..j][k];
              assert haystack[i..j] == tail[i - 1..j - 1];
            }
          }
        }
        false
  }
}
