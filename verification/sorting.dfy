/** Python's `sorted(xs, key=key, reverse=desc)` for a real-valued key: a
    stable sort, in which `reverse=True` orders by descending key but keeps
    equal-keyed elements in their original order. */
module Sorting {

  /** `a` may stand before `b` in the requested order. */
  predicate InOrder(a: real, b: real, desc: bool) {
    if desc then a >= b else a <= b
  }

  predicate SortedBy<T>(s: seq<T>, key: T -> real, desc: bool) {
    forall i, j :: 0 <= i < j < |s| ==> InOrder(key(s[i]), key(s[j]), desc)
  }

  /** The elements of `s` whose key is `k`, in their order in `s`. */
  function WithKey<T>(s: seq<T>, key: T -> real, k: real): (r: seq<T>)
    ensures |r| <= |s|
    ensures forall i :: 0 <= i < |r| ==> key(r[i]) == k
  {
    if s == [] then []
    else if key(s[0]) == k then [s[0]] + WithKey(s[1..], key, k)
    else WithKey(s[1..], key, k)
  }

  /** Insert `x` before the first element that does not strictly precede it. */
  function Insert<T>(x: T, s: seq<T>, key: T -> real, desc: bool): (r: seq<T>)
    ensures |r| == |s| + 1
    ensures multiset(r) == multiset(s) + multiset{x}
  {
    if s == [] || InOrder(key(x), key(s[0]), desc) then
      [x] + s
    else
      assert s == [s[0]] + s[1..];
      [s[0]] + Insert(x, s[1..], key, desc)
  }

  lemma {:induction false} InsertSorted<T>(x: T, s: seq<T>, key: T -> real, desc: bool)
    requires SortedBy(s, key, desc)
    ensures SortedBy(Insert(x, s, key, desc), key, desc)
  {
    if s != [] && !InOrder(key(x), key(s[0]), desc) {
      InsertSorted(x, s[1..], key, desc);
      HeadPrecedesInsert(x, s, key, desc);
      ConsSorted(s[0], Insert(x, s[1..], key, desc), key, desc);
    }
  }

  /** The head of `s`, which `x` does not precede, may stand before
      everything `x` is inserted among after it. */
  lemma HeadPrecedesInsert<T>(x: T, s: seq<T>, key: T -> real, desc: bool)
    requires SortedBy(s, key, desc) && s != [] && !InOrder(key(x), key(s[0]), desc)
    ensures forall y :: y in Insert(x, s[1..], key, desc) ==> InOrder(key(s[0]), key(y), desc)
  {
    var rest := Insert(x, s[1..], key, desc);
    forall y | y in rest
      ensures InOrder(key(s[0]), key(y), desc)
    {
      assert y in multiset(rest);
      if y != x {
        assert y in multiset(s[1..]);
        var j :| 0 <= j < |s[1..]| && s[1..][j] == y;
        assert s[j + 1] == y;
      }
    }
  }

  /** An element that may stand before every element of a sorted sequence
      heads it in order. */
  lemma ConsSorted<T>(a: T, rest: seq<T>, key: T -> real, desc: bool)
    requires SortedBy(rest, key, desc)
    requires forall y :: y in rest ==> InOrder(key(a), key(y), desc)
    ensures SortedBy([a] + rest, key, desc)
  {
    var r := [a] + rest;
    forall i, j | 0 <= i < j < |r|
      ensures InOrder(key(r[i]), key(r[j]), desc)
    {
      if i > 0 {
        assert r[i] == rest[i - 1] && r[j] == rest[j - 1];
      } else {
        assert r[j] == rest[j - 1] && r[j] in rest;
      }
    }
  }

  /** Stable insertion sort. */
  function Sort<T>(s: seq<T>, key: T -> real, desc: bool): (r: seq<T>)
    ensures |r| == |s|
    ensures multiset(r) == multiset(s)
    ensures SortedBy(r, key, desc)
  {
    if s == [] then []
    else
      assert s == [s[0]] + s[1..];
      var t := Sort(s[1..], key, desc);
      InsertSorted(s[0], t, key, desc);
      Insert(s[0], t, key, desc)
  }

  lemma {:induction false} InsertWithKey<T>(x: T, s: seq<T>, key: T -> real, desc: bool, k: real)
    requires SortedBy(s, key, desc)
    ensures WithKey(Insert(x, s, key, desc), key, k)
         == if key(x) == k then [x] + WithKey(s, key, k) else WithKey(s, key, k)
  {
    if s == [] || InOrder(key(x), key(s[0]), desc) {
      assert ([x] + s)[1..] == s;
    } else {
      InsertWithKey(x, s[1..], key, desc, k);
      var rest := Insert(x, s[1..], key, desc);
      assert ([s[0]] + rest)[1..] == rest;
      // s[0] strictly precedes x, so it does not share x's key
      assert key(s[0]) != key(x);
    }
  }

  /** Stability: for every key, the elements carrying it keep their order. */
  lemma {:induction false} SortIsStable<T>(s: seq<T>, key: T -> real, desc: bool, k: real)
    ensures WithKey(Sort(s, key, desc), key, k) == WithKey(s, key, k)
  {
    if s != [] {
      SortIsStable(s[1..], key, desc, k);
      InsertWithKey(s[0], Sort(s[1..], key, desc), key, desc, k);
    }
  }

  /** The elements of a prefix that carry a key are a prefix of those of
      the whole. */
  lemma {:induction false} WithKeyPrefix<T>(t: seq<T>, s: seq<T>, key: T -> real, k: real)
    requires t <= s
    ensures WithKey(t, key, k) <= WithKey(s, key, k)
    decreases |t|
  {
    if t != [] {
      assert t[0] == s[0] && t[1..] <= s[1..];
      WithKeyPrefix(t[1..], s[1..], key, k);
    }
  }

  /** Every element of a sorted sequence's prefix is in order with every
      element of its remaining suffix. */
  lemma PrefixBeforeSuffix<T>(s: seq<T>, key: T -> real, desc: bool, n: nat)
    requires SortedBy(s, key, desc) && n <= |s|
    ensures multiset(s) == multiset(s[..n]) + multiset(s[n..])
    ensures forall x, y :: x in s[..n] && y in s[n..] ==> InOrder(key(x), key(y), desc)
  {
    assert s == s[..n] + s[n..];
    forall x, y | x in s[..n] && y in s[n..]
      ensures InOrder(key(x), key(y), desc)
    {
      var i :| 0 <= i < n && s[..n][i] == x;
      var j :| 0 <= j < |s| - n && s[n..][j] == y;
      assert s[i] == x && s[n + j] == y;
    }
  }
}
