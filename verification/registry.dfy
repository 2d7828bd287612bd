/** The build registry's in-memory index: a list of build summaries, the
    parent-to-children lineage map and `last_build_id`, with the queries and
    the pruning the build loop runs against it. Disk files are left out; the
    success of writing a build's file is an input. */
module Registry {
  import opened Base
  import opened Sorting

  /** A build id (a UUID string in the system). */
  type Id = string

  /** Timestamps are fixed-width "%Y-%m-%dT%H:%M:%S" strings, which compare
      like the number of seconds they denote; the model uses that number. */
  type Timestamp = nat

  datatype Summary = Summary(
    buildId: Id,
    parentId: Option<Id>,
    score: real,
    status: string,
    timestamp: Timestamp,
    imports: seq<string>)

  datatype Index = Index(builds: seq<Summary>, lineage: map<Id, seq<Id>>, lastBuildId: int)

  /** The index a fresh registry starts from. */
  const EmptyIndex := Index([], map[], 0)

  const UnknownStatus := "unknown"

  /** The caller's build entry; `None` is a key the entry does not carry. */
  datatype Entry = Entry(
    parentId: Option<Id>,
    status: Option<string>,
    score: Option<real>,
    imports: Option<seq<string>>)

  function Ids(builds: seq<Summary>): (r: seq<Id>)
    ensures |r| == |builds| && forall i :: 0 <= i < |r| ==> r[i] == builds[i].buildId
  {
    seq(|builds|, i requires 0 <= i < |builds| => builds[i].buildId)
  }

  /** `id` occurs nowhere in the index, as a fresh UUID does not. */
  predicate Fresh(idx: Index, id: Id) {
    id !in Ids(idx.builds)
    && id !in idx.lineage
    && forall p :: p in idx.lineage ==> id !in idx.lineage[p]
  }

  predicate UniqueIds(builds: seq<Summary>) {
    forall i, j :: 0 <= i < j < |builds| ==> builds[i].buildId != builds[j].buildId
  }

  /** The first summary with the given id, as the `for b in builds: if
      b["build_id"] == id: break` scans find it. */
  function Find(builds: seq<Summary>, id: Id): (r: Option<Summary>)
    ensures r.None? <==> id !in Ids(builds)
    ensures r.Some? ==> r.value.buildId == id
    ensures r.Some? ==> r.value in builds
  {
    if builds == [] then None
    else if builds[0].buildId == id then Some(builds[0])
    else
      assert Ids(builds) == [builds[0].buildId] + Ids(builds[1..]);
      Find(builds[1..], id)
  }

  /** `Find` returns the earliest summary carrying the id. */
  lemma {:induction false} FindIsFirst(builds: seq<Summary>, id: Id, i: nat)
    requires i < |builds| && builds[i].buildId == id
    requires forall j :: 0 <= j < i ==> builds[j].buildId != id
    ensures Find(builds, id) == Some(builds[i])
  {
    if i > 0 {
      FindIsFirst(builds[1..], id, i - 1);
    }
  }

  // ---------------------------------------------------------------------
  // record_build
  // ---------------------------------------------------------------------

  /** The summary `record_build` appends, with the entry's defaults filled in. */
  function SummaryOf(e: Entry, id: Id, ts: Timestamp): (s: Summary)
    ensures s.buildId == id && s.timestamp == ts && s.parentId == e.parentId
    ensures s.score == (if e.score.Some? then e.score.value else 0.0)
    ensures s.status == (if e.status.Some? then e.status.value else UnknownStatus)
    ensures s.imports == (if e.imports.Some? then e.imports.value else [])
  {
    Summary(id, e.parentId, e.score.GetOr(0.0), e.status.GetOr(UnknownStatus), ts, e.imports.GetOr([]))
  }

  /** `lineage[p].append(child)`, creating the list when `p` has none. */
  function AddChild(lineage: map<Id, seq<Id>>, p: Id, child: Id): (r: map<Id, seq<Id>>)
    ensures r.Keys == lineage.Keys + {p}
    ensures r[p] == (if p in lineage then lineage[p] else []) + [child]
    ensures forall q :: q in lineage && q != p ==> r[q] == lineage[q]
  {
    lineage[p := (if p in lineage then lineage[p] else []) + [child]]
  }

  /** `record_build(entry)` with the fresh id `id`, the clock reading `ts`
      and whether writing the build's file succeeded. Returns the new index
      and the returned id (`None` on a failed write). */
  function RecordBuild(idx: Index, e: Entry, id: Id, ts: Timestamp, writeOk: bool): (r: (Index, Option<Id>))
    ensures !writeOk ==> r.0 == idx && r.1 == None
    ensures writeOk ==> r.1 == Some(id)
    ensures writeOk ==> r.0.builds == idx.builds + [SummaryOf(e, id, ts)]
    ensures r.0.lastBuildId == idx.lastBuildId
    ensures writeOk && Truthy(e.parentId) ==> r.0.lineage == AddChild(idx.lineage, e.parentId.value, id)
    ensures writeOk && !Truthy(e.parentId) ==> r.0.lineage == idx.lineage
  {
    if !writeOk then (idx, None)
    else
      var s := SummaryOf(e, id, ts);
      var lineage := if Truthy(e.parentId) then AddChild(idx.lineage, e.parentId.value, id) else idx.lineage;
      (Index(idx.builds + [s], lineage, idx.lastBuildId), Some(id))
  }

  /** Recording a fresh build keeps ids unique, earlier summaries unchanged,
      and makes the returned id find exactly the new summary. */
  lemma RecordFindsNewBuild(idx: Index, e: Entry, id: Id, ts: Timestamp)
    requires Fresh(idx, id) && UniqueIds(idx.builds)
    ensures var (idx', rid) := RecordBuild(idx, e, id, ts, true);
      rid == Some(id)
      && UniqueIds(idx'.builds)
      && idx'.builds[..|idx.builds|] == idx.builds
      && Find(idx'.builds, id) == Some(SummaryOf(e, id, ts))
      && forall other :: other != id ==> Find(idx'.builds, other) == Find(idx.builds, other)
  {
    var s := SummaryOf(e, id, ts);
    var builds := idx.builds + [s];
    assert RecordBuild(idx, e, id, ts, true).0.builds == builds;
    assert builds[..|idx.builds|] == idx.builds;
    UniqueAppend(idx.builds, s);
    FindAppend(idx.builds, s, id);
    forall other | other != id
      ensures Find(builds, other) == Find(idx.builds, other)
    {
      FindAppend(idx.builds, s, other);
    }
  }

  /** Appending a summary with an id not yet present keeps ids unique. */
  lemma UniqueAppend(builds: seq<Summary>, s: Summary)
    requires UniqueIds(builds) && s.buildId !in Ids(builds)
    ensures UniqueIds(builds + [s])
  {
    var b := builds + [s];
    forall i, j | 0 <= i < j < |b|
      ensures b[i].buildId != b[j].buildId
    {
      assert b[i] == builds[i];
      if j < |builds| {
        assert b[j] == builds[j];
      } else {
        assert Ids(builds)[i] == builds[i].buildId;
      }
    }
  }

  lemma {:induction false} FindAppend(builds: seq<Summary>, s: Summary, id: Id)
    ensures Find(builds + [s], id)
         == if id in Ids(builds) then Find(builds, id) else if s.buildId == id then Some(s) else None
  {
    if builds != [] {
      assert (builds + [s])[1..] == builds[1..] + [s];
      assert Ids(builds) == [builds[0].buildId] + Ids(builds[1..]);
      FindAppend(builds[1..], s, id);
    } else {
      assert Ids(builds) == [];
    }
  }

  /** A truthy parent lists the new build as its newest child; no other
      parent's children change. */
  lemma RecordLinksChild(idx: Index, e: Entry, id: Id, ts: Timestamp)
    requires Truthy(e.parentId)
    ensures var idx' := RecordBuild(idx, e, id, ts, true).0;
      var p := e.parentId.value;
      p in idx'.lineage && idx'.lineage[p][|idx'.lineage[p]| - 1] == id
      && (p in idx.lineage ==> idx'.lineage[p][..|idx.lineage[p]|] == idx.lineage[p])
      && forall q :: q in idx.lineage && q != p ==> q in idx'.lineage && idx'.lineage[q] == idx.lineage[q]
  {
  }

  // ---------------------------------------------------------------------
  // get_builds
  // ---------------------------------------------------------------------

  /** One `key: value` pair of a `get_builds` filter. `OtherKey` is a key no
      summary carries, which no build matches. */
  datatype Filter =
    | ByBuildId(id: Id)
    | ByParentId(parent: Option<Id>)
    | ByScore(score: real)
    | ByStatus(status: string)
    | ByTimestamp(ts: Timestamp)
    | ByImports(imports: seq<string>)
    | OtherKey(key: string)

  predicate Matches(b: Summary, f: Filter) {
    match f
    case ByBuildId(id) => b.buildId == id
    case ByParentId(p) => b.parentId == p
    case ByScore(x) => b.score == x
    case ByStatus(st) => b.status == st
    case ByTimestamp(t) => b.timestamp == t
    case ByImports(im) => b.imports == im
    case OtherKey(_) => false
  }

  predicate MatchesAll(b: Summary, filters: seq<Filter>) {
    forall i :: 0 <= i < |filters| ==> Matches(b, filters[i])
  }

  /** The builds that match every filter, in index order; an empty filter
      list keeps them all. */
  function FilterBuilds(builds: seq<Summary>, filters: seq<Filter>): (r: seq<Summary>)
    ensures |r| <= |builds|
    ensures forall b :: b in r <==> b in builds && MatchesAll(b, filters)
    ensures filters == [] ==> r == builds
  {
    if builds == [] then []
    else
      var rest := FilterBuilds(builds[1..], filters);
      assert forall b :: b in builds <==> b == builds[0] || b in builds[1..];
      if MatchesAll(builds[0], filters) then [builds[0]] + rest else rest
  }

  /** The `sort_by` argument: a summary field with a numeric order, or a
      key the summaries do not carry (no sorting then). */
  datatype SortKey = SortByScore | SortByTimestamp | SortByAbsentKey(key: string)

  function KeyOf(k: SortKey): Summary -> real {
    match k
    case SortByScore => (b: Summary) => b.score
    case SortByTimestamp => (b: Summary) => b.timestamp as real
    case SortByAbsentKey(_) => (b: Summary) => 0.0
  }

  /** `get_builds(filters, limit, sort_by, reverse)`. */
  function GetBuilds(idx: Index, filters: seq<Filter>, limit: int, sortBy: SortKey, reverse: bool): (r: seq<Summary>)
    ensures var n := |FilterBuilds(idx.builds, filters)|;
      0 <= limit ==> |r| == if limit <= n then limit else n
    ensures var n := |FilterBuilds(idx.builds, filters)|;
      limit < 0 ==> |r| == if -limit <= n then n + limit else 0
    ensures multiset(r) <= multiset(FilterBuilds(idx.builds, filters))
    ensures forall b :: b in r ==> b in idx.builds && MatchesAll(b, filters)
    ensures !sortBy.SortByAbsentKey? ==> SortedBy(r, KeyOf(sortBy), reverse)
    ensures !sortBy.SortByAbsentKey? ==>
      forall x, y :: x in r && y in multiset(FilterBuilds(idx.builds, filters)) - multiset(r) ==>
        InOrder(KeyOf(sortBy)(x), KeyOf(sortBy)(y), reverse)
  {
    var found := FilterBuilds(idx.builds, filters);
    var sorted := found != [] && !sortBy.SortByAbsentKey?;
    var ordered := if sorted then Sort(found, KeyOf(sortBy), reverse) else found;
    TakeOrdered(found, ordered, KeyOf(sortBy), reverse, sorted || found == [], limit);
    TakePy(ordered, limit)
  }

  /** A cut of a reordering of `found` keeps its length rule and takes each
      element no more often than `found` holds it; a cut of a sorted
      reordering is sorted, and nothing it leaves out comes before anything
      it keeps. */
  lemma TakeOrdered<T>(found: seq<T>, ordered: seq<T>, key: T -> real, desc: bool, sorted: bool, n: int)
    requires multiset(ordered) == multiset(found)
    requires sorted ==> SortedBy(ordered, key, desc)
    ensures |ordered| == |found|
    ensures multiset(TakePy(ordered, n)) <= multiset(found)
    ensures forall x :: x in TakePy(ordered, n) ==> x in found
    ensures sorted ==> SortedBy(TakePy(ordered, n), key, desc)
    ensures sorted ==>
      forall x, y :: x in TakePy(ordered, n) && y in multiset(found) - multiset(TakePy(ordered, n)) ==> InOrder(key(x), key(y), desc)
  {
    assert |multiset(ordered)| == |multiset(found)|;
    var t := TakePy(ordered, n);
    assert t == ordered[..|t|];
    assert ordered == t + ordered[|t|..];
    assert forall x :: x in t ==> x in multiset(t);
    assert forall x :: x in multiset(found) ==> x in found;
    if sorted {
      PrefixBeforeSuffix(ordered, key, desc, |t|);
    }
  }

  /** With a limit no smaller than the number of matches, every matching
      build is returned, each as often as it is stored. */
  lemma GetBuildsComplete(idx: Index, filters: seq<Filter>, limit: int, sortBy: SortKey, reverse: bool)
    requires limit >= |FilterBuilds(idx.builds, filters)|
    ensures multiset(GetBuilds(idx, filters, limit, sortBy, reverse)) == multiset(FilterBuilds(idx.builds, filters))
  {
    var found := FilterBuilds(idx.builds, filters);
    var ordered := if found != [] && !sortBy.SortByAbsentKey? then Sort(found, KeyOf(sortBy), reverse) else found;
    assert TakePy(ordered, limit) == ordered;
  }

  /** Sorting on a key the summaries do not carry returns the matches in
      index order. */
  lemma GetBuildsUnsorted(idx: Index, filters: seq<Filter>, limit: int, key: string, reverse: bool)
    ensures GetBuilds(idx, filters, limit, SortByAbsentKey(key), reverse)
         == TakePy(FilterBuilds(idx.builds, filters), limit)
  {
  }

  // ---------------------------------------------------------------------
  // get_descendants
  // ---------------------------------------------------------------------

  predicate ChildOf(lineage: map<Id, seq<Id>>, c: Id, p: Id) {
    p in lineage && c in lineage[p]
  }

  /** Each listed id is a child of `root` or of an id listed before it. */
  predicate RootedAt(lineage: map<Id, seq<Id>>, root: Id, ds: seq<Id>) {
    forall i :: 0 <= i < |ds| ==>
      ChildOf(lineage, ds[i], root) || exists j :: 0 <= j < i && ChildOf(lineage, ds[i], ds[j])
  }

  /** Every child of a listed id is listed too. */
  predicate Closed(lineage: map<Id, seq<Id>>, ds: seq<Id>) {
    forall y :: y in ds && y in lineage ==> forall c :: c in lineage[y] ==> c in ds
  }

  /** `collect_descendants(parent)`: a depth-first, pre-order walk of the
      lineage map. `None` when `fuel` runs out, which on a cyclic lineage
      the recursion of `collect_descendants` never escapes. */
  function Collect(lineage: map<Id, seq<Id>>, parent: Id, fuel: nat): (r: Option<seq<Id>>)
    ensures r.Some? ==> RootedAt(lineage, parent, r.value)
    ensures r.Some? && parent in lineage ==> forall c :: c in lineage[parent] ==> c in r.value
    ensures r.Some? ==> Closed(lineage, r.value)
    decreases fuel, 0
  {
    if parent !in lineage then Some([])
    else if fuel == 0 then None
    else CollectAll(lineage, parent, lineage[parent], fuel - 1)
  }

  /** The loop `for child_id in lineage[parent]`, over the children not yet
      visited. */
  function CollectAll(lineage: map<Id, seq<Id>>, parent: Id, children: seq<Id>, fuel: nat): (r: Option<seq<Id>>)
    requires forall c :: c in children ==> ChildOf(lineage, c, parent)
    ensures r.Some? ==> RootedAt(lineage, parent, r.value)
    ensures r.Some? ==> forall c :: c in children ==> c in r.value
    ensures r.Some? ==> Closed(lineage, r.value)
    decreases fuel, 1, |children|
  {
    if children == [] then Some([])
    else
      var c := children[0];
      match Collect(lineage, c, fuel)
      case None => None
      case Some(below) =>
        match CollectAll(lineage, parent, children[1..], fuel)
        case None => None
        case Some(after) =>
          var r := [c] + below + after;
          RootedConcat(lineage, parent, c, below, after);
          ClosedConcat(lineage, c, below, after);
          assert forall x :: x in children ==> x == c || x in children[1..];
          Some(r)
  }

  lemma RootedConcat(lineage: map<Id, seq<Id>>, parent: Id, c: Id, below: seq<Id>, after: seq<Id>)
    requires ChildOf(lineage, c, parent)
    requires RootedAt(lineage, c, below) && RootedAt(lineage, parent, after)
    ensures RootedAt(lineage, parent, [c] + below + after)
  {
    RootedCons(lineage, parent, c, below);
    RootedAppend(lineage, parent, [c] + below, after);
  }

  /** A visited child, everything below it, and the later siblings' lists
      together list every child of each of their ids. */
  lemma ClosedConcat(lineage: map<Id, seq<Id>>, c: Id, below: seq<Id>, after: seq<Id>)
    requires Closed(lineage, below) && Closed(lineage, after)
    requires c in lineage ==> forall x :: x in lineage[c] ==> x in below
    ensures Closed(lineage, [c] + below + after)
  {
    var r := [c] + below + after;
    forall y, x | y in r && y in lineage && x in lineage[y]
      ensures x in r
    {
      if y == c {
        assert x in below;
      } else if y in below {
        assert x in below;
      } else {
        assert y in after;
        assert x in after;
      }
    }
  }

  /** A child of `parent` followed by ids rooted at that child. */
  lemma RootedCons(lineage: map<Id, seq<Id>>, parent: Id, c: Id, below: seq<Id>)
    requires ChildOf(lineage, c, parent) && RootedAt(lineage, c, below)
    ensures RootedAt(lineage, parent, [c] + below)
  {
    var r := [c] + below;
    forall i | 1 <= i < |r|
      ensures ChildOf(lineage, r[i], parent) || exists j :: 0 <= j < i && ChildOf(lineage, r[i], r[j])
    {
      RootedConsAt(lineage, c, below, i - 1);
    }
  }

  /** Entry `k` of `below` is rooted in `[c] + below`, where it sits at `k + 1`. */
  lemma RootedConsAt(lineage: map<Id, seq<Id>>, c: Id, below: seq<Id>, k: nat)
    requires RootedAt(lineage, c, below) && k < |below|
    ensures exists j :: 0 <= j < k + 1 && ChildOf(lineage, below[k], ([c] + below)[j])
  {
    var r := [c] + below;
    if ChildOf(lineage, below[k], c) {
      assert ChildOf(lineage, below[k], r[0]);
    } else {
      var j :| 0 <= j < k && ChildOf(lineage, below[k], below[j]);
      assert ChildOf(lineage, below[k], r[j + 1]);
    }
  }

  /** Two lists rooted at the same id, one after the other. */
  lemma RootedAppend(lineage: map<Id, seq<Id>>, parent: Id, a: seq<Id>, b: seq<Id>)
    requires RootedAt(lineage, parent, a) && RootedAt(lineage, parent, b)
    ensures RootedAt(lineage, parent, a + b)
  {
    var r := a + b;
    forall i | |a| <= i < |r|
      ensures ChildOf(lineage, r[i], parent) || exists j :: 0 <= j < i && ChildOf(lineage, r[i], r[j])
    {
      var k := i - |a|;
      assert r[i] == b[k];
      if !ChildOf(lineage, b[k], parent) {
        var j :| 0 <= j < k && ChildOf(lineage, b[k], b[j]);
        assert ChildOf(lineage, r[i], r[j + |a|]);
      }
    }
    forall i | 0 <= i < |a|
      ensures ChildOf(lineage, r[i], parent) || exists j :: 0 <= j < i && ChildOf(lineage, r[i], r[j])
    {
      assert r[i] == a[i];
      if !ChildOf(lineage, a[i], parent) {
        var j :| 0 <= j < i && ChildOf(lineage, a[i], a[j]);
        assert ChildOf(lineage, r[i], r[j]);
      }
    }
  }

  /** `get_descendants(build_id)`. */
  function Descendants(idx: Index, id: Id, fuel: nat): (r: Option<seq<Id>>)
    ensures id !in idx.lineage ==> r == Some([])
    ensures r.Some? ==> RootedAt(idx.lineage, id, r.value)
    ensures r.Some? && id in idx.lineage ==> forall c :: c in idx.lineage[id] ==> c in r.value
    ensures r.Some? ==> Closed(idx.lineage, r.value)
  {
    if id !in idx.lineage then Some([]) else Collect(idx.lineage, id, fuel)
  }

  /** `p` goes down the lineage from `root`: its first id is a child of
      `root` and every later id a child of the one before it. */
  predicate IsPath(lineage: map<Id, seq<Id>>, root: Id, p: seq<Id>) {
    |p| > 0 && ChildOf(lineage, p[0], root)
    && forall i :: 0 <= i < |p| - 1 ==> ChildOf(lineage, p[i + 1], p[i])
  }

  /** A closed list holding the children of `root` holds every id on a path
      down from `root`. */
  lemma {:induction false} ClosedHoldsPath(lineage: map<Id, seq<Id>>, root: Id, ds: seq<Id>, p: seq<Id>, k: nat)
    requires Closed(lineage, ds)
    requires forall c :: ChildOf(lineage, c, root) ==> c in ds
    requires IsPath(lineage, root, p) && k < |p|
    ensures p[k] in ds
    decreases k
  {
    if k > 0 {
      ClosedHoldsPath(lineage, root, ds, p, k - 1);
      assert ChildOf(lineage, p[k], p[k - 1]);
    }
  }

  /** Each id of a list rooted at `root` ends a path down from `root`. */
  lemma {:induction false} RootedReachable(lineage: map<Id, seq<Id>>, root: Id, ds: seq<Id>, k: nat)
    requires RootedAt(lineage, root, ds) && k < |ds|
    ensures exists p :: IsPath(lineage, root, p) && p[|p| - 1] == ds[k]
    decreases k
  {
    if ChildOf(lineage, ds[k], root) {
      assert IsPath(lineage, root, [ds[k]]);
    } else {
      var j :| 0 <= j < k && ChildOf(lineage, ds[k], ds[j]);
      RootedReachable(lineage, root, ds, j);
      var p :| IsPath(lineage, root, p) && p[|p| - 1] == ds[j];
      var q := p + [ds[k]];
      assert q[|q| - 2] == ds[j];
      assert IsPath(lineage, root, q);
    }
  }

  /** `get_descendants` lists exactly the builds below `id`: every id that a
      path down the lineage reaches, and nothing else. */
  lemma DescendantsExact(idx: Index, id: Id, fuel: nat)
    requires Descendants(idx, id, fuel).Some?
    ensures var ds := Descendants(idx, id, fuel).value;
      forall p :: IsPath(idx.lineage, id, p) ==> p[|p| - 1] in ds
    ensures var ds := Descendants(idx, id, fuel).value;
      forall k :: 0 <= k < |ds| ==> exists p :: IsPath(idx.lineage, id, p) && p[|p| - 1] == ds[k]
  {
    var ds := Descendants(idx, id, fuel).value;
    forall p | IsPath(idx.lineage, id, p)
      ensures p[|p| - 1] in ds
    {
      ClosedHoldsPath(idx.lineage, id, ds, p, |p| - 1);
    }
    forall k | 0 <= k < |ds|
      ensures exists p :: IsPath(idx.lineage, id, p) && p[|p| - 1] == ds[k]
    {
      RootedReachable(idx.lineage, id, ds, k);
    }
  }

  /** Every downward path from `x` is shorter than `h`: the walk below `x`
      enters at most `h` lineage entries, one inside the other. */
  predicate HeightAtMost(lineage: map<Id, seq<Id>>, x: Id, h: nat)
    decreases h
  {
    x !in lineage || (h > 0 && forall c :: c in lineage[x] ==> HeightAtMost(lineage, c, h - 1))
  }

  /** Paths shorter than `h` below `x` bound its height by `h`. */
  lemma {:induction false} PathsBoundHeight(lineage: map<Id, seq<Id>>, x: Id, h: nat)
    requires h > 0
    requires forall p :: IsPath(lineage, x, p) ==> |p| < h
    ensures HeightAtMost(lineage, x, h)
    decreases h
  {
    if x in lineage {
      forall c | c in lineage[x]
        ensures HeightAtMost(lineage, c, h - 1)
      {
        assert IsPath(lineage, x, [c]);
        forall q | IsPath(lineage, c, q)
          ensures |q| < h - 1
        {
          var cq := [c] + q;
          assert cq[1..] == q;
          assert IsPath(lineage, x, cq);
        }
        PathsBoundHeight(lineage, c, h - 1);
      }
    }
  }

  /** With fuel no smaller than the height, the walk finishes. */
  lemma {:induction false} CollectLive(lineage: map<Id, seq<Id>>, parent: Id, h: nat, fuel: nat)
    requires HeightAtMost(lineage, parent, h) && h <= fuel
    ensures Collect(lineage, parent, fuel).Some?
    decreases fuel, 0
  {
    if parent in lineage {
      CollectAllLive(lineage, parent, lineage[parent], h - 1, fuel - 1);
    }
  }

  lemma {:induction false} CollectAllLive(lineage: map<Id, seq<Id>>, parent: Id, children: seq<Id>, h: nat, fuel: nat)
    requires forall c :: c in children ==> ChildOf(lineage, c, parent)
    requires forall c :: c in children ==> HeightAtMost(lineage, c, h)
    requires h <= fuel
    ensures CollectAll(lineage, parent, children, fuel).Some?
    decreases fuel, 1, |children|
  {
    if children != [] {
      CollectLive(lineage, children[0], h, fuel);
      CollectAllLive(lineage, parent, children[1..], h, fuel);
    }
  }

  /** `get_descendants` returns whenever every downward path from the build
      is shorter than the fuel: only a lineage with a cycle below the build,
      where `collect_descendants` never returns, runs out of every fuel. */
  lemma DescendantsLive(idx: Index, id: Id, fuel: nat)
    requires fuel > 0
    requires forall p :: IsPath(idx.lineage, id, p) ==> |p| < fuel
    ensures Descendants(idx, id, fuel).Some?
  {
    PathsBoundHeight(idx.lineage, id, fuel);
    CollectLive(idx.lineage, id, fuel, fuel);
  }

  // ---------------------------------------------------------------------
  // get_ancestry / get_lineage_depth
  // ---------------------------------------------------------------------

  /** The climb ends at `x`: the index does not hold `x`, or `x` has no
      (truthy) parent. */
  predicate EndsAt(builds: seq<Summary>, x: Id) {
    Find(builds, x).None? || !Truthy(Find(builds, x).value.parentId)
  }

  /** The `while current_id:` loop: the parent chain starting at `current`,
      newest first. It stops at a falsy id or at an id the index does not
      hold (which is still listed); `None` when `fuel` runs out first. */
  function Climb(builds: seq<Summary>, current: Option<Id>, fuel: nat): (r: Option<seq<Id>>)
    ensures r.Some? && Truthy(current) ==> r.value != [] && r.value[0] == current.value
    ensures !Truthy(current) ==> r == Some([])
    ensures r.Some? ==> forall i :: 0 <= i < |r.value| ==> r.value[i] != ""
    decreases fuel
  {
    if !Truthy(current) then Some([])
    else if fuel == 0 then None
    else
      match Find(builds, current.value)
      case None => Some([current.value])
      case Some(p) =>
        match Climb(builds, p.parentId, fuel - 1)
        case None => None
        case Some(rest) => Some([current.value] + rest)
  }

  /** The loop stops only at an id the index does not hold or at a build
      with a falsy parent: the last id of a found chain is one of those. */
  lemma {:induction false} ClimbEnds(builds: seq<Summary>, current: Option<Id>, fuel: nat)
    requires Climb(builds, current, fuel).Some?
    ensures var c := Climb(builds, current, fuel).value; c != [] ==> EndsAt(builds, c[|c| - 1])
    decreases fuel
  {
    if Truthy(current) {
      var c := Climb(builds, current, fuel).value;
      match Find(builds, current.value)
      case None =>
      case Some(p) =>
        var rest := Climb(builds, p.parentId, fuel - 1).value;
        assert c == [current.value] + rest;
        if rest != [] {
          ClimbEnds(builds, p.parentId, fuel - 1);
          assert c[|c| - 1] == rest[|rest| - 1];
        }
    }
  }

  function Reverse<T>(s: seq<T>): (r: seq<T>)
    ensures |r| == |s| && forall i :: 0 <= i < |s| ==> r[i] == s[|s| - 1 - i]
  {
    seq(|s|, i requires 0 <= i < |s| => s[|s| - 1 - i])
  }

  /** `get_ancestry(build_id)`: the parents of the build, oldest first. */
  function Ancestry(idx: Index, id: Id, fuel: nat): (r: Option<seq<Id>>)
    ensures id !in Ids(idx.builds) ==> r == Some([])
    ensures id in Ids(idx.builds) && r.Some? ==>
      var b := Find(idx.builds, id).value;
      (Truthy(b.parentId) <==> r.value != [])
      && (r.value != [] ==> r.value[|r.value| - 1] == b.parentId.value)
    ensures r.Some? && r.value != [] ==> EndsAt(idx.builds, r.value[0])
  {
    match Find(idx.builds, id)
    case None => Some([])
    case Some(b) =>
      match Climb(idx.builds, b.parentId, fuel)
      case None => None
      case Some(chain) =>
        ClimbEnds(idx.builds, b.parentId, fuel);
        Some(Reverse(chain))
  }

  /** Consecutive ancestors are parent and child: every listed id but the
      oldest is a build whose parent is the id listed just before it. */
  lemma {:induction false} ClimbLinks(builds: seq<Summary>, current: Option<Id>, fuel: nat)
    requires Climb(builds, current, fuel).Some?
    ensures var chain := Climb(builds, current, fuel).value;
      forall i :: 0 <= i < |chain| - 1 ==>
        Find(builds, chain[i]).Some? && Find(builds, chain[i]).value.parentId == Some(chain[i + 1])
    decreases fuel
  {
    if Truthy(current) && fuel > 0 {
      match Find(builds, current.value)
      case None =>
      case Some(p) =>
        ClimbLinks(builds, p.parentId, fuel - 1);
        var rest := Climb(builds, p.parentId, fuel - 1).value;
        var chain := [current.value] + rest;
        forall i | 0 <= i < |chain| - 1
          ensures Find(builds, chain[i]).Some? && Find(builds, chain[i]).value.parentId == Some(chain[i + 1])
        {
          if i == 0 {
            assert chain[1] == rest[0];
            assert Truthy(p.parentId);
          } else {
            assert chain[i] == rest[i - 1] && chain[i + 1] == rest[i];
          }
        }
    }
  }

  lemma AncestryLinks(idx: Index, id: Id, fuel: nat)
    requires Ancestry(idx, id, fuel).Some?
    ensures var a := Ancestry(idx, id, fuel).value;
      forall i :: 1 <= i < |a| ==>
        Find(idx.builds, a[i]).Some? && Find(idx.builds, a[i]).value.parentId == Some(a[i - 1])
  {
    match Find(idx.builds, id)
    case None =>
    case Some(b) =>
      ClimbLinks(idx.builds, b.parentId, fuel);
      var chain := Climb(idx.builds, b.parentId, fuel).value;
      var a := Reverse(chain);
      forall i | 1 <= i < |a|
        ensures Find(idx.builds, a[i]).Some? && Find(idx.builds, a[i]).value.parentId == Some(a[i - 1])
      {
        var k := |chain| - 1 - i;
        assert a[i] == chain[k] && a[i - 1] == chain[k + 1];
      }
  }

  /** What a finished `while current_id:` loop can have listed: starting
      at a truthy `current`, each id but the last is a held build whose
      parent is the next id, and the climb ends at the last id. */
  predicate IsChain(builds: seq<Summary>, current: Option<Id>, c: seq<Id>) {
    (!Truthy(current) ==> c == [])
    && (Truthy(current) ==> c != [] && c[0] == current.value)
    && (forall i :: 0 <= i < |c| ==> c[i] != "")
    && (forall i :: 0 <= i < |c| - 1 ==> Find(builds, c[i]).Some? && Find(builds, c[i]).value.parentId == Some(c[i + 1]))
    && (c != [] ==> EndsAt(builds, c[|c| - 1]))
  }

  /** Only one list is such a chain, and `Climb` finds it: the ancestry is
      determined by the index, with no early stop and no skipped parent. */
  lemma {:induction false} ClimbUnique(builds: seq<Summary>, current: Option<Id>, fuel: nat, c: seq<Id>)
    requires Climb(builds, current, fuel).Some?
    requires IsChain(builds, current, c)
    ensures c == Climb(builds, current, fuel).value
    decreases fuel
  {
    if Truthy(current) {
      ChainStep(builds, current, c);
      if |c| > 1 {
        var p := Find(builds, current.value).value;
        ClimbUnique(builds, p.parentId, fuel - 1, c[1..]);
        assert c == [c[0]] + c[1..];
      }
    }
  }

  /** The first step of a chain from a truthy id: it stops there exactly
      when the climb ends there, and otherwise goes on as a chain from the
      parent. */
  lemma ChainStep(builds: seq<Summary>, current: Option<Id>, c: seq<Id>)
    requires IsChain(builds, current, c) && Truthy(current)
    ensures c != [] && c[0] == current.value
    ensures |c| == 1 <==> EndsAt(builds, current.value)
    ensures |c| > 1 ==> Find(builds, current.value).Some? && Find(builds, current.value).value.parentId == Some(c[1])
    ensures |c| > 1 ==> IsChain(builds, Some(c[1]), c[1..])
  {
    if |c| > 1 {
      assert Find(builds, c[0]).Some? && Find(builds, c[0]).value.parentId == Some(c[1]);
      assert c[1] != "";
      var t := c[1..];
      forall i | 0 <= i < |t| - 1
        ensures Find(builds, t[i]).Some? && Find(builds, t[i]).value.parentId == Some(t[i + 1])
      {
        assert t[i] == c[i + 1] && t[i + 1] == c[i + 2];
      }
      assert t[|t| - 1] == c[|c| - 1];
    }
  }

  /** The loop finishes on every chain: with fuel for each of its ids,
      `Climb` returns it. Only a parent cycle runs out of every fuel. */
  lemma {:induction false} ClimbLive(builds: seq<Summary>, current: Option<Id>, fuel: nat, c: seq<Id>)
    requires IsChain(builds, current, c) && |c| <= fuel
    ensures Climb(builds, current, fuel) == Some(c)
    decreases fuel
  {
    if Truthy(current) {
      ChainStep(builds, current, c);
      if |c| > 1 {
        var p := Find(builds, current.value).value;
        ClimbLive(builds, p.parentId, fuel - 1, c[1..]);
        ClimbCons(builds, current, fuel, c[1..]);
        assert c == [c[0]] + c[1..];
      } else {
        ClimbLast(builds, current, fuel);
        assert c == [current.value];
      }
    }
  }

  /** One step of the loop: a held build followed by its parent's chain. */
  lemma ClimbCons(builds: seq<Summary>, current: Option<Id>, fuel: nat, rest: seq<Id>)
    requires Truthy(current) && fuel > 0 && Find(builds, current.value).Some?
    requires Climb(builds, Find(builds, current.value).value.parentId, fuel - 1) == Some(rest)
    ensures Climb(builds, current, fuel) == Some([current.value] + rest)
  {
  }

  /** The last step of the loop: an id where the climb ends. */
  lemma ClimbLast(builds: seq<Summary>, current: Option<Id>, fuel: nat)
    requires Truthy(current) && fuel > 0 && EndsAt(builds, current.value)
    ensures Climb(builds, current, fuel) == Some([current.value])
  {
    if Find(builds, current.value).Some? {
      assert Climb(builds, Find(builds, current.value).value.parentId, fuel - 1) == Some([]);
      assert [current.value] + [] == [current.value];
    }
  }

  /** `get_ancestry` of a build whose parent starts a chain within the fuel
      is that chain, oldest first. */
  lemma AncestryLive(idx: Index, id: Id, fuel: nat, c: seq<Id>)
    requires Find(idx.builds, id).Some?
    requires IsChain(idx.builds, Find(idx.builds, id).value.parentId, c) && |c| <= fuel
    ensures Ancestry(idx, id, fuel) == Some(Reverse(c))
  {
    ClimbLive(idx.builds, Find(idx.builds, id).value.parentId, fuel, c);
  }

  /** More fuel does not change a chain that was found. */
  lemma {:induction false} ClimbFuel(builds: seq<Summary>, current: Option<Id>, fuel: nat, more: nat)
    requires Climb(builds, current, fuel).Some? && fuel <= more
    ensures Climb(builds, current, more) == Climb(builds, current, fuel)
    decreases fuel
  {
    if Truthy(current) && fuel > 0 {
      match Find(builds, current.value)
      case None =>
      case Some(p) =>
        ClimbFuel(builds, p.parentId, fuel - 1, more - 1);
    }
  }

  /** The walk behind `Climb` never meets the id it was started from: a
      build that is its own ancestor sends `get_ancestry`'s loop round for
      ever, so a chain that ends does not contain the build itself. */
  lemma {:induction false} ClimbAvoidsStart(builds: seq<Summary>, b: Summary, fuel: nat)
    requires Find(builds, b.buildId) == Some(b)
    requires Climb(builds, b.parentId, fuel).Some?
    ensures b.buildId !in Climb(builds, b.parentId, fuel).value
    decreases fuel
  {
    var chain := Climb(builds, b.parentId, fuel).value;
    forall k | 0 <= k < |chain|
      ensures chain[k] != b.buildId
    {
      ClimbAvoidsStartAt(builds, b, fuel, k);
    }
  }

  /** Step `k` of the chain is not the start: the chain from there would be
      the rest of the chain and also one longer than the whole chain. */
  lemma ClimbAvoidsStartAt(builds: seq<Summary>, b: Summary, fuel: nat, k: nat)
    requires Find(builds, b.buildId) == Some(b)
    requires Climb(builds, b.parentId, fuel).Some? && k < |Climb(builds, b.parentId, fuel).value|
    ensures Climb(builds, b.parentId, fuel).value[k] != b.buildId
  {
    var chain := Climb(builds, b.parentId, fuel).value;
    if chain[k] == b.buildId {
      ClimbSuffix(builds, b.parentId, fuel, k);
      var f: nat := fuel - k;
      ClimbRestart(builds, b, f);
      ClimbFuel(builds, b.parentId, f - 1, fuel);
      assert false;
    }
  }

  /** Climbing from a found build's own id goes on to its parent. */
  lemma ClimbRestart(builds: seq<Summary>, b: Summary, fuel: nat)
    requires Find(builds, b.buildId) == Some(b) && b.buildId != ""
    requires Climb(builds, Some(b.buildId), fuel).Some?
    ensures fuel > 0 && Climb(builds, b.parentId, fuel - 1).Some?
    ensures Climb(builds, Some(b.buildId), fuel).value == [b.buildId] + Climb(builds, b.parentId, fuel - 1).value
  {
  }

  /** Step `k` of a found chain starts a chain of its own: the rest. */
  lemma {:induction false} ClimbSuffix(builds: seq<Summary>, current: Option<Id>, fuel: nat, k: nat)
    requires Climb(builds, current, fuel).Some?
    requires k < |Climb(builds, current, fuel).value|
    ensures k <= fuel
    ensures Climb(builds, Some(Climb(builds, current, fuel).value[k]), fuel - k)
         == Some(Climb(builds, current, fuel).value[k..])
    decreases fuel
  {
    var chain := Climb(builds, current, fuel).value;
    assert Truthy(current) && fuel > 0;
    if k == 0 {
      assert current == Some(chain[0]);
      assert chain[0..] == chain;
    } else {
      match Find(builds, current.value)
      case None =>
      case Some(p) =>
        var rest := Climb(builds, p.parentId, fuel - 1).value;
        assert chain == [current.value] + rest;
        ClimbSuffix(builds, p.parentId, fuel - 1, k - 1);
        assert rest[k - 1] == chain[k] && rest[k - 1..] == chain[k..];
    }
  }

  /** `get_ancestry` never lists the build itself. */
  lemma AncestryExcludesSelf(idx: Index, id: Id, fuel: nat)
    requires Ancestry(idx, id, fuel).Some?
    ensures id !in Ancestry(idx, id, fuel).value
  {
    match Find(idx.builds, id)
    case None =>
    case Some(b) =>
      ClimbAvoidsStart(idx.builds, b, fuel);
  }

  /** `get_lineage_depth(build_id)`: the number of ancestors. */
  function LineageDepth(idx: Index, id: Id, fuel: nat): (r: Option<nat>)
    ensures r.Some? <==> Ancestry(idx, id, fuel).Some?
    ensures r.Some? ==> r.value == |Ancestry(idx, id, fuel).value|
    ensures id !in Ids(idx.builds) ==> r == Some(0)
  {
    match Ancestry(idx, id, fuel)
    case None => None
    case Some(a) => Some(|a|)
  }

  /** A build without a (truthy) parent has depth 0. */
  lemma RootHasDepthZero(idx: Index, id: Id, fuel: nat)
    requires id in Ids(idx.builds) && !Truthy(Find(idx.builds, id).value.parentId)
    ensures LineageDepth(idx, id, fuel) == Some(0)
  {
  }

  // ---------------------------------------------------------------------
  // Positions: the entries a filter keeps, in index order
  // ---------------------------------------------------------------------

  /** The indices at which `mask` holds, in increasing order. */
  function Positions(mask: seq<bool>): (ps: seq<nat>)
    ensures forall k :: 0 <= k < |ps| ==> ps[k] < |mask|
    decreases |mask|
  {
    if mask == [] then []
    else
      var shifted := Shift(Positions(mask[1..]), 1);
      if mask[0] then [0] + shifted else shifted
  }

  /** `ps` lists, in increasing order, exactly the indices at which `mask`
      holds. */
  predicate ListsPositions(mask: seq<bool>, ps: seq<nat>) {
    Marked(mask, ps) && Increasing(ps) && Covers(mask, ps)
  }

  /** Every entry of `ps` is an index at which `mask` holds. */
  predicate Marked(mask: seq<bool>, ps: seq<nat>) {
    forall k :: 0 <= k < |ps| ==> ps[k] < |mask| && mask[ps[k]]
  }

  predicate Increasing(ps: seq<nat>) {
    forall k, l :: 0 <= k < l < |ps| ==> ps[k] < ps[l]
  }

  /** Every index at which `mask` holds is in `ps`. */
  predicate Covers(mask: seq<bool>, ps: seq<nat>) {
    forall i :: 0 <= i < |mask| && mask[i] ==> i in ps
  }

  lemma {:induction false} PositionsListed(mask: seq<bool>)
    ensures ListsPositions(mask, Positions(mask))
    ensures |Positions(mask)| == |set i | 0 <= i < |mask| && mask[i]|
    decreases |mask|
  {
    if mask != [] {
      var rest := Positions(mask[1..]);
      PositionsListed(mask[1..]);
      ShiftMarked(mask, rest);
      ShiftCovers(mask, rest);
      if mask[0] {
        HeadZero(mask, Shift(rest, 1));
      }
    }
    ListedCount(mask, Positions(mask));
  }

  lemma ShiftMarked(mask: seq<bool>, rest: seq<nat>)
    requires mask != [] && Marked(mask[1..], rest) && Increasing(rest)
    ensures Marked(mask, Shift(rest, 1)) && Increasing(Shift(rest, 1))
    ensures forall k :: 0 <= k < |rest| ==> 0 < Shift(rest, 1)[k]
  {
    forall k | 0 <= k < |rest|
      ensures mask[rest[k] + 1]
    {
      assert mask[1..][rest[k]] == mask[rest[k] + 1];
    }
  }

  lemma ShiftCovers(mask: seq<bool>, rest: seq<nat>)
    requires mask != [] && Covers(mask[1..], rest)
    ensures forall i :: 0 < i < |mask| && mask[i] ==> i in Shift(rest, 1)
  {
    forall i | 0 < i < |mask| && mask[i]
      ensures i in Shift(rest, 1)
    {
      assert mask[1..][i - 1] == mask[i];
      var k :| 0 <= k < |rest| && rest[k] == i - 1;
      assert Shift(rest, 1)[k] == i;
    }
  }

  /** A listing of the indices after 0, headed by 0 when the mask holds
      there, lists the whole mask. */
  lemma HeadZero(mask: seq<bool>, ps: seq<nat>)
    requires mask != [] && mask[0] && Marked(mask, ps) && Increasing(ps)
    requires forall k :: 0 <= k < |ps| ==> 0 < ps[k]
    requires forall i :: 0 < i < |mask| && mask[i] ==> i in ps
    ensures ListsPositions(mask, [0] + ps)
  {
    var qs := [0] + ps;
    assert forall k :: 0 < k < |qs| ==> qs[k] == ps[k - 1];
  }

  /** A listing has one entry per index at which the mask holds. */
  lemma ListedCount(mask: seq<bool>, ps: seq<nat>)
    requires ListsPositions(mask, ps)
    ensures |ps| == |set i | 0 <= i < |mask| && mask[i]|
  {
    assert (set i | 0 <= i < |mask| && mask[i]) == Elems(ps);
    IncreasingCard(ps);
  }

  /** The entries of a listing, as a set. */
  function Elems(ps: seq<nat>): set<nat> {
    set x | x in ps
  }

  lemma {:induction false} IncreasingCard(ps: seq<nat>)
    requires forall k, l :: 0 <= k < l < |ps| ==> ps[k] < ps[l]
    ensures |Elems(ps)| == |ps|
    decreases |ps|
  {
    if ps != [] {
      IncreasingCard(ps[1..]);
      assert ps[0] !in Elems(ps[1..]);
      assert Elems(ps) == Elems(ps[1..]) + {ps[0]};
    }
  }

  // ---------------------------------------------------------------------
  // query_by_imports
  // ---------------------------------------------------------------------

  function SetOf(xs: seq<string>): set<string> {
    set x | x in xs
  }

  lemma {:induction false} SetOfCard(xs: seq<string>)
    ensures |SetOf(xs)| <= |xs|
  {
    if xs != [] {
      SetOfCard(xs[1..]);
      assert SetOf(xs) == SetOf(xs[1..]) + {xs[0]};
    }
  }

  lemma {:induction false} SubsetCard<T>(a: set<T>, b: set<T>)
    requires a <= b
    ensures |a| <= |b|
    decreases |b|
  {
    if a != {} {
      var x :| x in a;
      SubsetCard(a - {x}, b - {x});
    }
  }

  function Shared(imports: seq<string>, b: Summary): set<string> {
    SetOf(imports) * SetOf(b.imports)
  }

  /** `len(shared) / len(imports)` for a build sharing some import. */
  function Similarity(imports: seq<string>, b: Summary): (r: real)
    requires Shared(imports, b) != {}
    ensures 0.0 < r <= 1.0
  {
    SetOfCard(imports);
    var x :| x in Shared(imports, b);
    assert x in imports;
    SubsetCard(Shared(imports, b), SetOf(imports));
    (|Shared(imports, b)| as real) / (|imports| as real)
  }

  /** The `(build, similarity)` pairs for the builds sharing an import. */
  function Matched(imports: seq<string>, builds: seq<Summary>): (r: seq<(Summary, real)>)
    ensures forall m :: m in r ==> m.0 in builds && Shared(imports, m.0) != {} && m.1 == Similarity(imports, m.0)
    ensures forall b :: b in builds && Shared(imports, b) != {} ==> exists m :: m in r && m.0 == b
  {
    if builds == [] then []
    else
      var rest := Matched(imports, builds[1..]);
      var b := builds[0];
      if Shared(imports, b) != {} then
        var m := (b, Similarity(imports, b));
        assert m in [m] + rest;
        [m] + rest
      else rest
  }

  /** Which builds share an import, index by index. */
  function SharingMask(imports: seq<string>, builds: seq<Summary>): (m: seq<bool>)
    ensures |m| == |builds| && forall i :: 0 <= i < |builds| ==> m[i] == (Shared(imports, builds[i]) != {})
  {
    seq(|builds|, i requires 0 <= i < |builds| => Shared(imports, builds[i]) != {})
  }

  /** `matches` has one pair per build sharing an import, in index order:
      its builds are those at the sharing indices, in increasing order, each
      paired with its similarity. */
  lemma MatchedInIndexOrder(imports: seq<string>, builds: seq<Summary>)
    ensures var ps := Positions(SharingMask(imports, builds));
      && ListsPositions(SharingMask(imports, builds), ps)
      && Firsts(Matched(imports, builds)) == Picks(builds, ps)
      && forall k :: 0 <= k < |ps| ==>
           Shared(imports, builds[ps[k]]) != {}
           && Matched(imports, builds)[k].1 == Similarity(imports, builds[ps[k]])
  {
    PositionsListed(SharingMask(imports, builds));
    MatchedAt(imports, builds);
    var ms := Matched(imports, builds);
    assert forall k :: 0 <= k < |ms| ==> ms[k] in ms;
  }

  lemma {:induction false} MatchedAt(imports: seq<string>, builds: seq<Summary>)
    ensures Firsts(Matched(imports, builds)) == Picks(builds, Positions(SharingMask(imports, builds)))
    decreases |builds|
  {
    if builds != [] {
      var mask := SharingMask(imports, builds);
      var tail := builds[1..];
      assert mask[1..] == SharingMask(imports, tail);
      MatchedAt(imports, tail);
      PicksShift(builds, Positions(mask[1..]));
      if Shared(imports, builds[0]) != {} {
        FirstsCons((builds[0], Similarity(imports, builds[0])), Matched(imports, tail));
      }
    }
  }

  function Firsts<A, B>(ms: seq<(A, B)>): (r: seq<A>)
    ensures |r| == |ms| && forall i :: 0 <= i < |r| ==> r[i] == ms[i].0
  {
    seq(|ms|, i requires 0 <= i < |ms| => ms[i].0)
  }

  function SimilarityKey(m: (Summary, real)): real { m.1 }

  /** `query_by_imports(imports)`: the builds sharing an import, by
      non-increasing similarity; `QueryByImportsStable` shows ties stay in
      index order. */
  function QueryByImports(idx: Index, imports: seq<string>): (r: seq<Summary>)
    ensures forall b :: b in r <==> b in idx.builds && Shared(imports, b) != {}
    ensures forall i, j :: 0 <= i < j < |r| ==> Similarity(imports, r[i]) >= Similarity(imports, r[j])
  {
    var ms := Matched(imports, idx.builds);
    var sorted := Sort(ms, SimilarityKey, true);
    FirstsMembers(imports, idx.builds, sorted);
    FirstsOrdered(imports, idx.builds, sorted);
    Firsts(sorted)
  }

  /** The builds of `bs` that share an import and have similarity `k`, in
      their order in `bs`. */
  function WithSimilarity(imports: seq<string>, bs: seq<Summary>, k: real): (r: seq<Summary>)
    ensures |r| <= |bs|
  {
    if bs == [] then []
    else if Shared(imports, bs[0]) != {} && Similarity(imports, bs[0]) == k then
      [bs[0]] + WithSimilarity(imports, bs[1..], k)
    else WithSimilarity(imports, bs[1..], k)
  }

  /** The sort is stable: the builds of any one similarity come out in the
      order the index holds them. */
  lemma QueryByImportsStable(idx: Index, imports: seq<string>, k: real)
    ensures WithSimilarity(imports, QueryByImports(idx, imports), k) == WithSimilarity(imports, idx.builds, k)
  {
    var ms := Matched(imports, idx.builds);
    var sorted := Sort(ms, SimilarityKey, true);
    SortIsStable(ms, SimilarityKey, true, k);
    forall m | m in sorted
      ensures Shared(imports, m.0) != {} && m.1 == Similarity(imports, m.0)
    {
      assert m in multiset(ms);
    }
    FirstsWithKey(imports, sorted, k);
    MatchedWithKey(imports, idx.builds, k);
  }

  lemma {:induction false} FirstsWithKey(imports: seq<string>, ms: seq<(Summary, real)>, k: real)
    requires forall m :: m in ms ==> Shared(imports, m.0) != {} && m.1 == Similarity(imports, m.0)
    ensures WithSimilarity(imports, Firsts(ms), k) == Firsts(WithKey(ms, SimilarityKey, k))
    decreases |ms|
  {
    if ms != [] {
      assert ms[0] in ms;
      assert Firsts(ms)[1..] == Firsts(ms[1..]);
      FirstsWithKey(imports, ms[1..], k);
      FirstsCons(ms[0], WithKey(ms[1..], SimilarityKey, k));
    }
  }

  lemma {:induction false} MatchedWithKey(imports: seq<string>, builds: seq<Summary>, k: real)
    ensures WithSimilarity(imports, builds, k) == Firsts(WithKey(Matched(imports, builds), SimilarityKey, k))
    decreases |builds|
  {
    if builds != [] {
      MatchedWithKey(imports, builds[1..], k);
      var rest := Matched(imports, builds[1..]);
      if Shared(imports, builds[0]) != {} {
        var m := (builds[0], Similarity(imports, builds[0]));
        assert ([m] + rest)[1..] == rest;
        FirstsCons(m, WithKey(rest, SimilarityKey, k));
      }
    }
  }

  lemma FirstsCons<A, B>(m: (A, B), ms: seq<(A, B)>)
    ensures Firsts([m] + ms) == [m.0] + Firsts(ms)
  {
  }

  /** The result has one entry per build sharing an import. */
  lemma QueryByImportsCount(idx: Index, imports: seq<string>)
    ensures |QueryByImports(idx, imports)| == |set i | 0 <= i < |idx.builds| && Shared(imports, idx.builds[i]) != {}|
  {
    var mask := SharingMask(imports, idx.builds);
    PositionsListed(mask);
    MatchedAt(imports, idx.builds);
    assert (set i | 0 <= i < |idx.builds| && Shared(imports, idx.builds[i]) != {}) == (set i | 0 <= i < |mask| && mask[i]);
  }

  lemma FirstsMembers(imports: seq<string>, builds: seq<Summary>, sorted: seq<(Summary, real)>)
    requires multiset(sorted) == multiset(Matched(imports, builds))
    ensures forall b :: b in Firsts(sorted) <==> b in builds && Shared(imports, b) != {}
  {
    var ms := Matched(imports, builds);
    var r := Firsts(sorted);
    forall b | b in builds && Shared(imports, b) != {}
      ensures b in r
    {
      var m :| m in ms && m.0 == b;
      assert m in multiset(sorted);
      var i :| 0 <= i < |sorted| && sorted[i] == m;
      assert r[i] == b;
    }
    forall b | b in r
      ensures b in builds && Shared(imports, b) != {}
    {
      var i :| 0 <= i < |r| && r[i] == b;
      assert sorted[i] in multiset(ms);
    }
  }

  lemma FirstsOrdered(imports: seq<string>, builds: seq<Summary>, sorted: seq<(Summary, real)>)
    requires multiset(sorted) == multiset(Matched(imports, builds))
    requires SortedBy(sorted, SimilarityKey, true)
    ensures forall b :: b in Firsts(sorted) ==> Shared(imports, b) != {}
    ensures var r := Firsts(sorted);
      forall i, j :: 0 <= i < j < |r| ==> Similarity(imports, r[i]) >= Similarity(imports, r[j])
  {
    var ms := Matched(imports, builds);
    var r := Firsts(sorted);
    forall b | b in r
      ensures Shared(imports, b) != {}
    {
      var i :| 0 <= i < |r| && r[i] == b;
      assert sorted[i] in multiset(ms);
    }
    forall i, j | 0 <= i < j < |r|
      ensures Similarity(imports, r[i]) >= Similarity(imports, r[j])
    {
      assert sorted[i] in multiset(ms) && sorted[j] in multiset(ms);
      assert SimilarityKey(sorted[i]) >= SimilarityKey(sorted[j]);
    }
  }

  // ---------------------------------------------------------------------
  // get_top_builds
  // ---------------------------------------------------------------------

  function ScoreOf(b: Summary): real { b.score }

  /** `get_top_builds(n)`: the builds by non-increasing score, cut to `n`. */
  function TopBuilds(idx: Index, n: int): (r: seq<Summary>)
    ensures 0 <= n ==> |r| == if n <= |idx.builds| then n else |idx.builds|
    ensures n < 0 ==> |r| == if -n <= |idx.builds| then |idx.builds| + n else 0
    ensures forall i, j :: 0 <= i < j < |r| ==> r[i].score >= r[j].score
    ensures multiset(r) <= multiset(idx.builds)
    ensures forall x, y :: x in r && y in multiset(idx.builds) - multiset(r) ==> x.score >= y.score
  {
    var sorted := Sort(idx.builds, ScoreOf, true);
    PrefixOfSorted(idx.builds, sorted, TakePy(sorted, n));
    TakePy(sorted, n)
  }

  /** Ties at the cut go to the builds the index holds first: for every
      score, the kept builds with that score are the first ones the index
      holds with it, in index order. */
  lemma TopBuildsStable(idx: Index, n: int, k: real)
    ensures WithKey(TopBuilds(idx, n), ScoreOf, k) <= WithKey(idx.builds, ScoreOf, k)
  {
    var sorted := Sort(idx.builds, ScoreOf, true);
    SortIsStable(idx.builds, ScoreOf, true, k);
    WithKeyPrefix(TakePy(sorted, n), sorted, ScoreOf, k);
  }

  lemma PrefixOfSorted(builds: seq<Summary>, sorted: seq<Summary>, r: seq<Summary>)
    requires multiset(sorted) == multiset(builds) && SortedBy(sorted, ScoreOf, true)
    requires r <= sorted
    ensures forall i, j :: 0 <= i < j < |r| ==> r[i].score >= r[j].score
    ensures multiset(r) <= multiset(builds)
    ensures forall x, y :: x in r && y in multiset(builds) - multiset(r) ==> x.score >= y.score
  {
    assert r == sorted[..|r|];
    PrefixBeforeSuffix(sorted, ScoreOf, true, |r|);
    assert multiset(builds) - multiset(r) == multiset(sorted[|r|..]);
    forall i, j | 0 <= i < j < |r|
      ensures r[i].score >= r[j].score
    {
      assert ScoreOf(sorted[i]) >= ScoreOf(sorted[j]);
    }
  }

  // ---------------------------------------------------------------------
  // prune
  // ---------------------------------------------------------------------

  /** The `criteria` of `prune`; `None` is an absent key. */
  datatype Criteria = Criteria(minScore: Option<real>, olderThan: Option<Timestamp>, keepTopN: Option<int>)

  /** The ids of the top `keep_top_n` builds, when `keep_top_n` is truthy. */
  function KeepIds(idx: Index, c: Criteria): (r: set<Id>)
    ensures c.keepTopN.None? || c.keepTopN.value == 0 ==> r == {}
    ensures c.keepTopN.Some? && c.keepTopN.value != 0 ==>
      forall b :: b in TopBuilds(idx, c.keepTopN.value) ==> b.buildId in r
    ensures c.keepTopN.Some? && c.keepTopN.value != 0 ==>
      forall id :: id in r ==> exists b :: b in TopBuilds(idx, c.keepTopN.value) && b.buildId == id
  {
    if c.keepTopN.None? || c.keepTopN.value == 0 then {}
    else set b | b in TopBuilds(idx, c.keepTopN.value) :: b.buildId
  }

  /** Whether the build-selection loop of `prune` lists build `b`. */
  predicate Prunable(b: Summary, keep: set<Id>, c: Criteria) {
    b.buildId !in keep
    && (b.score < c.minScore.GetOr(0.0)
        || (c.olderThan.Some? && c.olderThan.value != 0 && b.timestamp < c.olderThan.value))
  }

  /** The ids the selection loop lists, in index order. */
  function ToPrune(builds: seq<Summary>, keep: set<Id>, c: Criteria): (r: seq<Id>)
    ensures |r| <= |builds|
    ensures forall id :: id in r <==> exists b :: b in builds && Prunable(b, keep, c) && b.buildId == id
  {
    if builds == [] then []
    else
      var rest := ToPrune(builds[1..], keep, c);
      assert forall b :: b in builds <==> b == builds[0] || b in builds[1..];
      if Prunable(builds[0], keep, c) then [builds[0].buildId] + rest else rest
  }

  /** `[c for c in children if c not in gone]`: the ids not in `gone`, in
      their order. */
  function Without(ids: seq<Id>, gone: set<Id>): (r: seq<Id>)
    ensures |r| <= |ids|
  {
    if ids == [] then []
    else if ids[0] in gone then Without(ids[1..], gone)
    else [ids[0]] + Without(ids[1..], gone)
  }

  /** The ids left are exactly those of `ids` not in `gone`. */
  lemma {:induction false} WithoutMembers(ids: seq<Id>, gone: set<Id>)
    ensures forall x :: x in Without(ids, gone) <==> x in ids && x !in gone
    decreases |ids|
  {
    if ids != [] {
      WithoutMembers(ids[1..], gone);
      assert forall x :: x in ids <==> x == ids[0] || x in ids[1..];
    }
  }

  /** `Without` keeps order: filtering a concatenation filters each part. */
  lemma {:induction false} WithoutConcat(a: seq<Id>, b: seq<Id>, gone: set<Id>)
    ensures Without(a + b, gone) == Without(a, gone) + Without(b, gone)
    decreases |a|
  {
    if a == [] {
      assert a + b == b;
    } else {
      WithoutConcat(a[1..], b, gone);
      assert (a + b)[0] == a[0] && (a + b)[1..] == a[1..] + b;
    }
  }

  /** Filtering twice is filtering once by both sets. */
  lemma {:induction false} WithoutTwice(ids: seq<Id>, a: set<Id>, b: set<Id>)
    ensures Without(Without(ids, a), b) == Without(ids, a + b)
    decreases |ids|
  {
    if ids != [] {
      WithoutTwice(ids[1..], a, b);
    }
  }

  /** `[b for b in builds if b["build_id"] not in gone]`: the builds whose
      id is not in `gone`, in index order. */
  function KeepBuilds(builds: seq<Summary>, gone: set<Id>): (r: seq<Summary>)
    ensures |r| <= |builds|
  {
    if builds == [] then []
    else if builds[0].buildId in gone then KeepBuilds(builds[1..], gone)
    else [builds[0]] + KeepBuilds(builds[1..], gone)
  }

  /** The builds kept are exactly those whose id is not in `gone`. */
  lemma {:induction false} KeepBuildsMembers(builds: seq<Summary>, gone: set<Id>)
    ensures forall b :: b in KeepBuilds(builds, gone) <==> b in builds && b.buildId !in gone
    decreases |builds|
  {
    if builds != [] {
      KeepBuildsMembers(builds[1..], gone);
      assert forall b :: b in builds <==> b == builds[0] || b in builds[1..];
    }
  }

  /** `KeepBuilds` keeps order: filtering a concatenation filters each part. */
  lemma {:induction false} KeepBuildsConcat(a: seq<Summary>, b: seq<Summary>, gone: set<Id>)
    ensures KeepBuilds(a + b, gone) == KeepBuilds(a, gone) + KeepBuilds(b, gone)
    decreases |a|
  {
    if a == [] {
      assert a + b == b;
    } else {
      KeepBuildsConcat(a[1..], b, gone);
      var ab := a + b;
      assert ab[0] == a[0] && ab[1..] == a[1..] + b;
      if a[0].buildId !in gone {
        assert KeepBuilds(ab, gone) == [a[0]] + KeepBuilds(a[1..] + b, gone);
        assert KeepBuilds(a, gone) == [a[0]] + KeepBuilds(a[1..], gone);
      }
    }
  }

  lemma {:induction false} KeepBuildsTwice(builds: seq<Summary>, a: set<Id>, b: set<Id>)
    ensures KeepBuilds(KeepBuilds(builds, a), b) == KeepBuilds(builds, a + b)
    decreases |builds|
  {
    if builds != [] {
      KeepBuildsTwice(builds[1..], a, b);
    }
  }

  /** A build that stays is found exactly as before: the first summary
      with its id is unchanged by dropping other ids. */
  lemma {:induction false} KeepBuildsFind(builds: seq<Summary>, gone: set<Id>, id: Id)
    requires id !in gone
    ensures Find(KeepBuilds(builds, gone), id) == Find(builds, id)
    decreases |builds|
  {
    if builds != [] {
      KeepBuildsFind(builds[1..], gone, id);
    }
  }

  /** One round of the removal loop: drop the build, its lineage entry,
      and its place in every children list, keeping every order. */
  function RemoveOne(idx: Index, id: Id): (r: Index)
    ensures forall b :: b in r.builds <==> b in idx.builds && b.buildId != id
    ensures r.builds == KeepBuilds(idx.builds, {id})
    ensures r.lineage.Keys == idx.lineage.Keys - {id}
    ensures forall p :: p in r.lineage ==> forall c :: c in r.lineage[p] <==> c in idx.lineage[p] && c != id
    ensures forall p :: p in r.lineage ==> r.lineage[p] == Without(idx.lineage[p], {id})
    ensures r.lastBuildId == idx.lastBuildId
  {
    var builds := KeepBuilds(idx.builds, {id});
    var lineage := map p | p in idx.lineage && p != id :: Without(idx.lineage[p], {id});
    KeepBuildsMembers(idx.builds, {id});
    forall p | p in lineage
      ensures forall c :: c in lineage[p] <==> c in idx.lineage[p] && c != id
    {
      WithoutMembers(idx.lineage[p], {id});
    }
    Index(builds, lineage, idx.lastBuildId)
  }

  /** The removal loop over `to_prune`. */
  function RemoveAll(idx: Index, ids: seq<Id>): (r: Index)
    ensures forall b :: b in r.builds <==> b in idx.builds && b.buildId !in ids
    ensures r.builds == KeepBuilds(idx.builds, SetOf(ids))
    ensures r.lineage.Keys == idx.lineage.Keys - SetOf(ids)
    ensures forall p :: p in r.lineage ==> forall c :: c in r.lineage[p] <==> c in idx.lineage[p] && c !in ids
    ensures forall p :: p in r.lineage ==> r.lineage[p] == Without(idx.lineage[p], SetOf(ids))
    ensures r.lastBuildId == idx.lastBuildId
    decreases |ids|
  {
    if ids == [] then
      assert SetOf(ids) == {};
      KeepBuildsNone(idx.builds);
      forall p | p in idx.lineage ensures idx.lineage[p] == Without(idx.lineage[p], {}) {
        WithoutNone(idx.lineage[p]);
      }
      idx
    else
      var one := RemoveOne(idx, ids[0]);
      var r := RemoveAll(one, ids[1..]);
      assert SetOf(ids) == {ids[0]} + SetOf(ids[1..]);
      KeepBuildsTwice(idx.builds, {ids[0]}, SetOf(ids[1..]));
      forall p | p in r.lineage
        ensures r.lineage[p] == Without(idx.lineage[p], SetOf(ids))
      {
        WithoutTwice(idx.lineage[p], {ids[0]}, SetOf(ids[1..]));
      }
      r
  }

  lemma {:induction false} KeepBuildsNone(builds: seq<Summary>)
    ensures KeepBuilds(builds, {}) == builds
    decreases |builds|
  {
    if builds != [] {
      KeepBuildsNone(builds[1..]);
    }
  }

  lemma {:induction false} WithoutNone(ids: seq<Id>)
    ensures Without(ids, {}) == ids
    decreases |ids|
  {
    if ids != [] {
      WithoutNone(ids[1..]);
    }
  }

  /** `prune(criteria)`: the pruned index and the number of ids pruned. */
  function Prune(idx: Index, c: Criteria): (r: (Index, nat))
    ensures r.1 == |ToPrune(idx.builds, KeepIds(idx, c), c)|
    ensures r.1 <= |idx.builds|
    ensures r.0.lastBuildId == idx.lastBuildId
  {
    var gone := ToPrune(idx.builds, KeepIds(idx, c), c);
    (RemoveAll(idx, gone), |gone|)
  }

  /** After pruning, no pruned id is left among the builds, the lineage keys
      or any children list; kept top builds and builds that meet the score
      and age criteria survive unless another build with their id went. */
  lemma PruneEffect(idx: Index, c: Criteria)
    ensures var gone := ToPrune(idx.builds, KeepIds(idx, c), c);
      var idx' := Prune(idx, c).0;
      (forall id :: id in gone ==>
         id !in Ids(idx'.builds) && id !in idx'.lineage
         && forall p :: p in idx'.lineage ==> id !in idx'.lineage[p])
      && (forall b :: b in idx.builds && Prunable(b, KeepIds(idx, c), c) ==> b !in idx'.builds)
      && (forall b :: b in idx'.builds <==> b in idx.builds && b.buildId !in gone)
      && (forall b :: b in idx.builds && b.buildId in KeepIds(idx, c) ==> b in idx'.builds)
  {
    var keep := KeepIds(idx, c);
    var gone := ToPrune(idx.builds, keep, c);
    var idx' := Prune(idx, c).0;
    forall id | id in gone
      ensures id !in Ids(idx'.builds)
    {
      forall i | 0 <= i < |idx'.builds|
        ensures Ids(idx'.builds)[i] != id
      {
        assert idx'.builds[i] in idx'.builds;
      }
    }
  }

  /** Which builds the selection loop lists, index by index. */
  function PrunableMask(builds: seq<Summary>, keep: set<Id>, c: Criteria): (m: seq<bool>)
    ensures |m| == |builds| && forall i :: 0 <= i < |builds| ==> m[i] == Prunable(builds[i], keep, c)
  {
    seq(|builds|, i requires 0 <= i < |builds| => Prunable(builds[i], keep, c))
  }

  /** `to_prune` has one entry per prunable build, in index order: it is
      the ids of the builds at the prunable indices, in increasing order. */
  lemma ToPruneInIndexOrder(builds: seq<Summary>, keep: set<Id>, c: Criteria)
    ensures var ps := Positions(PrunableMask(builds, keep, c));
      && ListsPositions(PrunableMask(builds, keep, c), ps)
      && ToPrune(builds, keep, c) == Ids(Picks(builds, ps))
  {
    PositionsListed(PrunableMask(builds, keep, c));
    ToPruneAt(builds, keep, c);
  }

  /** `to_prune` has one entry per prunable build. */
  lemma ToPruneCount(builds: seq<Summary>, keep: set<Id>, c: Criteria)
    ensures |ToPrune(builds, keep, c)| == |set i | 0 <= i < |builds| && Prunable(builds[i], keep, c)|
  {
    var mask := PrunableMask(builds, keep, c);
    PositionsListed(mask);
    ToPruneAt(builds, keep, c);
    assert (set i | 0 <= i < |builds| && Prunable(builds[i], keep, c)) == (set i | 0 <= i < |mask| && mask[i]);
  }

  lemma {:induction false} ToPruneAt(builds: seq<Summary>, keep: set<Id>, c: Criteria)
    ensures ToPrune(builds, keep, c) == Ids(Picks(builds, Positions(PrunableMask(builds, keep, c))))
    decreases |builds|
  {
    if builds != [] {
      var mask := PrunableMask(builds, keep, c);
      var tail := builds[1..];
      assert mask[1..] == PrunableMask(tail, keep, c);
      ToPruneAt(tail, keep, c);
      PicksShift(builds, Positions(mask[1..]));
      var rest := Picks(tail, Positions(mask[1..]));
      assert Ids([builds[0]] + rest) == [builds[0].buildId] + Ids(rest);
    }
  }

  /** `KeepBuilds` drops exactly the builds the selection loop lists when
      `gone` holds exactly their ids. */
  lemma {:induction false} KeepBuildsCount(builds: seq<Summary>, keep: set<Id>, c: Criteria, gone: set<Id>)
    requires forall b :: b in builds ==> (b.buildId in gone <==> Prunable(b, keep, c))
    ensures |KeepBuilds(builds, gone)| + |ToPrune(builds, keep, c)| == |builds|
    decreases |builds|
  {
    if builds != [] {
      assert builds[0] in builds;
      assert forall b :: b in builds[1..] ==> b in builds;
      KeepBuildsCount(builds[1..], keep, c, gone);
    }
  }

  /** When build ids are distinct, the count `prune` returns is the number
      of builds it removed. (With a repeated id the two can differ: a build
      that is not listed goes too when another build with its id is.) */
  lemma PruneCountsRemoved(idx: Index, c: Criteria)
    requires UniqueIds(idx.builds)
    ensures Prune(idx, c).1 == |idx.builds| - |Prune(idx, c).0.builds|
  {
    var keep := KeepIds(idx, c);
    var gone := ToPrune(idx.builds, keep, c);
    forall b | b in idx.builds
      ensures b.buildId in SetOf(gone) <==> Prunable(b, keep, c)
    {
      if b.buildId in SetOf(gone) {
        var b' :| b' in idx.builds && Prunable(b', keep, c) && b'.buildId == b.buildId;
        var i :| 0 <= i < |idx.builds| && idx.builds[i] == b;
        var j :| 0 <= j < |idx.builds| && idx.builds[j] == b';
        assert i == j;
      }
    }
    KeepBuildsCount(idx.builds, keep, c, SetOf(gone));
  }

  /** Pruning keeps the order of the surviving builds and children, so every
      id it does not prune is found, and lists its children, as before. */
  lemma PruneKeepsLookups(idx: Index, c: Criteria, id: Id)
    requires id !in ToPrune(idx.builds, KeepIds(idx, c), c)
    ensures Find(Prune(idx, c).0.builds, id) == Find(idx.builds, id)
    ensures var gone := ToPrune(idx.builds, KeepIds(idx, c), c);
      id in idx.lineage ==> Prune(idx, c).0.lineage[id] == Without(idx.lineage[id], SetOf(gone))
  {
    var gone := ToPrune(idx.builds, KeepIds(idx, c), c);
    KeepBuildsFind(idx.builds, SetOf(gone), id);
  }

  /** The builds `prune` keeps: the top `keep_top_n` are always among them. */
  lemma PruneKeepsTop(idx: Index, c: Criteria)
    requires c.keepTopN.Some? && c.keepTopN.value != 0
    ensures forall b :: b in TopBuilds(idx, c.keepTopN.value) ==> b in Prune(idx, c).0.builds
  {
    PruneEffect(idx, c);
    forall b | b in TopBuilds(idx, c.keepTopN.value)
      ensures b in idx.builds
    {
      assert b in multiset(TopBuilds(idx, c.keepTopN.value));
    }
  }
}
