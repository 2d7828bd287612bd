/** Properties of one node run as core/base_node.py performs it: the
    events of the trace that `Nodes.NodeRunSpec` describes (prep, the
    numbered attempts with their waits, the fallback call and post), where
    each can occur, and what post receives and the run ends with. */
module NodeRuns {
  import opened Base
  import opened Nodes

  /** The attempt numbers of the Exec events of a trace, in order. */
  function ExecOf(e: Event): seq<nat> {
    if e.Exec? then [e.attempt] else []
  }

  function ExecsOf(trace: seq<Event>): seq<nat> {
    if trace == [] then []
    else ExecOf(trace[0]) + ExecsOf(trace[1..])
  }

  lemma {:induction false} ExecsOfAppend(a: seq<Event>, b: seq<Event>)
    ensures ExecsOf(a + b) == ExecsOf(a) + ExecsOf(b)
    decreases |a|
  {
    if a == [] {
      assert a + b == b;
    } else {
      var ab := a + b;
      assert ab[0] == a[0] && ab[1..] == a[1..] + b;
      ExecsOfAppend(a[1..], b);
      calc {
        ExecsOf(ab);
        ExecOf(a[0]) + ExecsOf(a[1..] + b);
        ExecOf(a[0]) + (ExecsOf(a[1..]) + ExecsOf(b));
        (ExecOf(a[0]) + ExecsOf(a[1..])) + ExecsOf(b);
      }
    }
  }

  /** The attempts are numbered 0, 1, ..., n-1 in order, and the trace of
      the attempts holds nothing but attempts and waits. */
  lemma AttemptsShape(n: nat, waits: bool)
    ensures ExecsOf(Attempts(n, waits)) == seq(n, i => i)
    ensures forall j :: 0 <= j < |Attempts(n, waits)| ==> Attempts(n, waits)[j].Exec? || Attempts(n, waits)[j] == Wait
    ensures n > 0 ==> Attempts(n, waits)[0] == Exec(0) && Attempts(n, waits)[|Attempts(n, waits)| - 1] == Exec(n - 1)
    ensures !waits ==> Wait !in Attempts(n, waits)
    ensures forall j :: 0 <= j < |Attempts(n, waits)| && Attempts(n, waits)[j] == Wait ==>
              0 < j < |Attempts(n, waits)| - 1 && Attempts(n, waits)[j - 1].Exec? && Attempts(n, waits)[j + 1].Exec?
  {
    AttemptsNumbered(n, waits);
    AttemptsLaidOut(n, waits);
  }

  lemma {:induction false} AttemptsNumbered(n: nat, waits: bool)
    ensures ExecsOf(Attempts(n, waits)) == seq(n, i => i)
    decreases n
  {
    if n == 1 {
      assert ExecsOf([Exec(0)]) == [0] + ExecsOf([]);
    } else if n > 1 {
      AttemptsNumbered(n - 1, waits);
      var mid: seq<Event> := if waits then [Wait] else [];
      assert Attempts(n, waits) == Attempts(n - 1, waits) + mid + [Exec(n - 1)];
      NumberedStep(Attempts(n - 1, waits), mid, n);
    }
  }

  lemma NumberedStep(a: seq<Event>, mid: seq<Event>, n: nat)
    requires n > 1 && ExecsOf(a) == seq(n - 1, i => i)
    requires mid == [] || mid == [Wait]
    ensures ExecsOf(a + mid + [Exec(n - 1)]) == seq(n, i => i)
  {
    ExecsOfAppend(a, mid);
    if mid != [] {
      ExecsOfSingle(Wait);
    }
    assert ExecsOf(a + mid) == seq(n - 1, i => i);
    ExecsOfAppend(a + mid, [Exec(n - 1)]);
    ExecsOfSingle(Exec(n - 1));
    RangeSnoc(n);
  }

  lemma RangeSnoc(n: nat)
    requires n > 0
    ensures seq(n, i => i) == seq(n - 1, i => i) + [n - 1]
  {
  }

  /** Attempts and waits only, first attempt 0 and last attempt `n - 1`,
      waits only when `waits`, and each wait between two attempts. */
  predicate LaidOut(t: seq<Event>, n: nat, waits: bool) {
    && (forall j :: 0 <= j < |t| ==> t[j].Exec? || t[j] == Wait)
    && (n > 0 ==> |t| > 0 && t[0] == Exec(0) && t[|t| - 1] == Exec(n - 1))
    && (!waits ==> Wait !in t)
    && WaitsBetweenAttempts(t)
  }

  lemma {:induction false} AttemptsLaidOut(n: nat, waits: bool)
    ensures LaidOut(Attempts(n, waits), n, waits)
    decreases n
  {
    if n > 1 {
      AttemptsLaidOut(n - 1, waits);
      var mid: seq<Event> := if waits then [Wait] else [];
      assert Attempts(n, waits) == Attempts(n - 1, waits) + mid + [Exec(n - 1)];
      LaidOutStep(Attempts(n - 1, waits), mid, n, waits);
    }
  }

  lemma LaidOutStep(a: seq<Event>, mid: seq<Event>, n: nat, waits: bool)
    requires n > 1 && LaidOut(a, n - 1, waits)
    requires mid == if waits then [Wait] else []
    ensures LaidOut(a + mid + [Exec(n - 1)], n, waits)
  {
    var t := a + mid + [Exec(n - 1)];
    forall j | 0 <= j < |t|
      ensures t[j].Exec? || t[j] == Wait
    {
      if j < |a| {
        assert t[j] == a[j];
      }
    }
    assert t[0] == a[0];
    forall j | 0 <= j < |t| && t[j] == Wait
      ensures 0 < j < |t| - 1 && t[j - 1].Exec? && t[j + 1].Exec?
    {
      if j < |a| {
        assert t[j] == a[j] && t[j - 1] == a[j - 1] && t[j + 1] == a[j + 1];
      } else {
        assert j == |a| && t[j - 1] == a[|a| - 1];
      }
    }
    if !waits {
      assert t == a + [Exec(n - 1)];
      forall j | 0 <= j < |t|
        ensures t[j] != Wait
      {
        if j < |a| {
          assert t[j] == a[j];
        }
      }
    }
  }

  /** post has been called: it is the last event of the trace. */
  predicate PostCalled(t: seq<Event>) {
    |t| > 0 && t[|t| - 1] == Post
  }

  /** prep runs first, and only once; when it raises, nothing else runs and
      the run raises what prep raised. */
  lemma PrepRunsFirstAndOnce<R>(cfg: Config, prep: Option<Exc>, exec: nat -> Attempt<R>, fallback: Exc -> Fallback<R>,
                                post: Option<R> -> Attempt<Option<Label>>)
    ensures var r := NodeRunSpec(cfg, prep, exec, fallback, post);
            && r.trace[0] == Prep && (forall j :: 0 < j < |r.trace| ==> r.trace[j] != Prep)
            && (prep.Some? ==> r.trace == [Prep] && r.received == None && r.outcome == Raised(prep.value))
  {
    RunFramed(cfg, prep, exec, fallback, post);
  }

  /** post is called at most once, as the last step. It is called exactly
      when prep returned and either no attempt was allowed, the first
      attempt not retried returned, or the fallback recovered; the run then
      returns post's label ("default" for `None`) or raises what post
      raised. Otherwise the run raises. */
  lemma PostOnceUnlessRaised<R>(cfg: Config, prep: Option<Exc>, exec: nat -> Attempt<R>, fallback: Exc -> Fallback<R>,
                                post: Option<R> -> Attempt<Option<Label>>)
    ensures var r := NodeRunSpec(cfg, prep, exec, fallback, post);
            && (forall j :: 0 <= j < |r.trace| - 1 ==> r.trace[j] != Post)
            && (PostCalled(r.trace) <==>
                  prep.None?
                  && (cfg.maxRetries <= 0
                      || if FirstStop(exec, cfg.maxRetries).Some?
                         then exec(FirstStop(exec, cfg.maxRetries).value).Returned?
                         else fallback(exec(cfg.maxRetries - 1).exc).Recover?))
            && (PostCalled(r.trace) ==> r.outcome == AfterPost(post(r.received)))
            && (!PostCalled(r.trace) ==> r.outcome.Raised?)
  {
    RunFramed(cfg, prep, exec, fallback, post);
  }

  /** Every run's trace is prep, then the attempts, then what follows the
      attempts: post, or the fallback with or without post. Without post
      the run raises. */
  predicate TailOfRun(tail: seq<Event>, outcome: Outcome) {
    || (tail == [] && outcome.Raised?)
    || tail == [Post]
    || (|tail| == 2 && tail[0].CallFallback? && tail[1] == Post)
    || (|tail| == 1 && tail[0].CallFallback? && outcome.Raised?)
  }

  lemma RunFramed<R>(cfg: Config, prep: Option<Exc>, exec: nat -> Attempt<R>, fallback: Exc -> Fallback<R>,
                     post: Option<R> -> Attempt<Option<Label>>)
    ensures var r := NodeRunSpec(cfg, prep, exec, fallback, post);
            && r.trace[0] == Prep && (forall j :: 0 < j < |r.trace| ==> r.trace[j] != Prep)
            && (forall j :: 0 <= j < |r.trace| - 1 ==> r.trace[j] != Post)
            && (PostCalled(r.trace) <==>
                  prep.None?
                  && (cfg.maxRetries <= 0
                      || if FirstStop(exec, cfg.maxRetries).Some?
                         then exec(FirstStop(exec, cfg.maxRetries).value).Returned?
                         else fallback(exec(cfg.maxRetries - 1).exc).Recover?))
            && (PostCalled(r.trace) ==> r.outcome == AfterPost(post(r.received)))
            && (!PostCalled(r.trace) ==> r.outcome.Raised?)
  {
    var r := NodeRunSpec(cfg, prep, exec, fallback, post);
    var a, tail := RunLayout(cfg, prep, exec, fallback, post);
    FramedPrepPost(a, tail, r.outcome, r.trace);
  }

  /** A run's trace split into prep, the attempts and waits, and the tail
      after them, with what the tail says about post. */
  lemma RunLayout<R>(cfg: Config, prep: Option<Exc>, exec: nat -> Attempt<R>, fallback: Exc -> Fallback<R>,
                     post: Option<R> -> Attempt<Option<Label>>) returns (a: seq<Event>, tail: seq<Event>)
    ensures var r := NodeRunSpec(cfg, prep, exec, fallback, post);
            && (forall j :: 0 <= j < |a| ==> a[j].Exec? || a[j] == Wait)
            && TailOfRun(tail, r.outcome) && r.trace == [Prep] + a + tail
            && (Post in tail <==>
                  prep.None?
                  && (cfg.maxRetries <= 0
                      || if FirstStop(exec, cfg.maxRetries).Some?
                         then exec(FirstStop(exec, cfg.maxRetries).value).Returned?
                         else fallback(exec(cfg.maxRetries - 1).exc).Recover?))
            && (Post in tail ==> r.outcome == AfterPost(post(r.received)))
  {
    var r := NodeRunSpec(cfg, prep, exec, fallback, post);
    var waits := cfg.wait > 0;
    if prep.Some? {
      a, tail := [], [];
    } else if cfg.maxRetries <= 0 {
      a, tail := [], [Post];
    } else {
      match FirstStop(exec, cfg.maxRetries)
      case Some(k) =>
        AttemptsLaidOut(k + 1, waits);
        a := Attempts(k + 1, waits);
        tail := if exec(k).Returned? then [Post] else [];
      case None =>
        var e := exec(cfg.maxRetries - 1).exc;
        AttemptsLaidOut(cfg.maxRetries, waits);
        a := Attempts(cfg.maxRetries, waits);
        tail := if fallback(e).Recover? then [CallFallback(e), Post] else [CallFallback(e)];
    }
  }

  lemma FramedPrepPost(a: seq<Event>, tail: seq<Event>, outcome: Outcome, t: seq<Event>)
    requires forall j :: 0 <= j < |a| ==> a[j].Exec? || a[j] == Wait
    requires TailOfRun(tail, outcome) && t == [Prep] + a + tail
    ensures t[0] == Prep && (forall j :: 0 < j < |t| ==> t[j] != Prep)
    ensures PostCalled(t) <==> Post in tail
    ensures !PostCalled(t) ==> outcome.Raised?
    ensures forall j :: 0 <= j < |t| - 1 ==> t[j] != Post
  {
    if tail != [] {
      assert t[|t| - 1] == tail[|tail| - 1];
    } else if a != [] {
      assert t[|t| - 1] == a[|a| - 1];
    }
    forall j | 0 < j < |t|
      ensures t[j] != Prep && (j < |t| - 1 ==> t[j] != Post)
    {
      if j <= |a| {
        assert t[j] == a[j - 1];
      } else {
        assert t[j] == tail[j - |a| - 1];
      }
    }
  }

  /** How many attempts a run makes. */
  function AttemptCount<R>(cfg: Config, prep: Option<Exc>, exec: nat -> Attempt<R>): nat {
    if prep.Some? || cfg.maxRetries <= 0 then 0
    else match FirstStop(exec, cfg.maxRetries)
      case Some(k) => k + 1
      case None => cfg.maxRetries
  }

  lemma ExecsOfSingle(e: Event)
    ensures ExecsOf([e]) == if e.Exec? then [e.attempt] else []
  {
    assert [e][1..] == [];
  }

  lemma ExecsOfFramed(a: seq<Event>, n: nat, waits: bool, b: seq<Event>, t: seq<Event>)
    requires forall j :: 0 <= j < |a| ==> !a[j].Exec?
    requires forall j :: 0 <= j < |b| ==> !b[j].Exec?
    requires t == a + Attempts(n, waits) + b
    ensures ExecsOf(t) == seq(n, i => i)
  {
    AttemptsNumbered(n, waits);
    ExecsOfAppend(a + Attempts(n, waits), b);
    ExecsOfAppend(a, Attempts(n, waits));
    NoExecs(a);
    NoExecs(b);
  }

  lemma {:induction false} NoExecs(a: seq<Event>)
    requires forall j :: 0 <= j < |a| ==> !a[j].Exec?
    ensures ExecsOf(a) == []
    decreases |a|
  {
    if a != [] {
      NoExecs(a[1..]);
    }
  }

  lemma ExecsOfRun<R>(cfg: Config, prep: Option<Exc>, exec: nat -> Attempt<R>, fallback: Exc -> Fallback<R>,
                      post: Option<R> -> Attempt<Option<Label>>)
    ensures ExecsOf(NodeRunSpec(cfg, prep, exec, fallback, post).trace) == seq(AttemptCount(cfg, prep, exec), i => i)
  {
    var r := NodeRunSpec(cfg, prep, exec, fallback, post);
    var waits := cfg.wait > 0;
    if prep.Some? {
      assert r.trace == [Prep] + Attempts(0, waits) + [];
      ExecsOfFramed([Prep], 0, waits, [], r.trace);
    } else if cfg.maxRetries <= 0 {
      assert r.trace == [Prep] + Attempts(0, waits) + [Post];
      ExecsOfFramed([Prep], 0, waits, [Post], r.trace);
    } else {
      match FirstStop(exec, cfg.maxRetries)
      case Some(k) =>
        if exec(k).Returned? {
          assert r.trace == [Prep] + Attempts(k + 1, waits) + [Post];
          ExecsOfFramed([Prep], k + 1, waits, [Post], r.trace);
        } else {
          assert r.trace == [Prep] + Attempts(k + 1, waits) + [];
          ExecsOfFramed([Prep], k + 1, waits, [], r.trace);
        }
      case None =>
        var e := exec(cfg.maxRetries - 1).exc;
        var a := Attempts(cfg.maxRetries, waits);
        if fallback(e).Recover? {
          assert r.trace == [Prep] + a + [CallFallback(e), Post];
          ExecsOfFramed([Prep], cfg.maxRetries, waits, [CallFallback(e), Post], r.trace);
        } else {
          assert r.trace == [Prep] + a + [CallFallback(e)];
          ExecsOfFramed([Prep], cfg.maxRetries, waits, [CallFallback(e)], r.trace);
        }
    }
  }

  /** exec is attempted at most `max_retries` times, with attempt numbers
      0, 1, ... in order; once an attempt returns there are no further
      attempts and no fallback, and post receives that attempt's value.
      An attempt that raises something other than an `Exception` also ends
      the attempts, without fallback and without post, and the run raises
      it. */
  lemma AttemptsStopAtFirstSuccess<R>(cfg: Config, prep: Option<Exc>, exec: nat -> Attempt<R>, fallback: Exc -> Fallback<R>,
                                      post: Option<R> -> Attempt<Option<Label>>)
    ensures var r := NodeRunSpec(cfg, prep, exec, fallback, post);
            && |ExecsOf(r.trace)| <= (if cfg.maxRetries <= 0 then 0 else cfg.maxRetries)
            && (forall i :: 0 <= i < |ExecsOf(r.trace)| ==> ExecsOf(r.trace)[i] == i)
            && (prep.None? && cfg.maxRetries > 0 && FirstStop(exec, cfg.maxRetries).Some? ==>
                  var k := FirstStop(exec, cfg.maxRetries).value;
                  && |ExecsOf(r.trace)| == k + 1
                  && (forall j :: 0 <= j < |r.trace| ==> !r.trace[j].CallFallback?)
                  && (exec(k).Returned? ==> r.received == Some(exec(k).value))
                  && (exec(k).Failed? ==> r.outcome == Raised(exec(k).exc) && r.received == None && Post !in r.trace))
  {
    ExecsOfRun(cfg, prep, exec, fallback, post);
    if prep.None? && cfg.maxRetries > 0 && FirstStop(exec, cfg.maxRetries).Some? {
      StopAtFirst(cfg, prep, exec, fallback, post, FirstStop(exec, cfg.maxRetries).value);
    }
  }

  /** The run whose first attempt not retried is `k`. */
  lemma StopAtFirst<R>(cfg: Config, prep: Option<Exc>, exec: nat -> Attempt<R>, fallback: Exc -> Fallback<R>,
                       post: Option<R> -> Attempt<Option<Label>>, k: nat)
    ensures var r := NodeRunSpec(cfg, prep, exec, fallback, post);
            prep.None? && cfg.maxRetries > 0 && FirstStop(exec, cfg.maxRetries) == Some(k) ==>
            && (forall j :: 0 <= j < |r.trace| ==> !r.trace[j].CallFallback?)
            && (exec(k).Returned? ==> r.received == Some(exec(k).value))
            && (exec(k).Failed? ==> r.outcome == Raised(exec(k).exc) && r.received == None && Post !in r.trace)
  {
    if prep.None? && cfg.maxRetries > 0 && FirstStop(exec, cfg.maxRetries) == Some(k) {
      var r := NodeRunSpec(cfg, prep, exec, fallback, post);
      var a := Attempts(k + 1, cfg.wait > 0);
      var tail: seq<Event> := if exec(k).Returned? then [Post] else [];
      assert r.trace == [Prep] + a + tail;
      AttemptsShape(k + 1, cfg.wait > 0);
      FramedNoFallback(a, tail, r.trace);
    }
  }

  /** Prep, attempts and waits, then post or nothing: no fallback call, and
      post only when the tail holds it. */
  lemma FramedNoFallback(a: seq<Event>, tail: seq<Event>, t: seq<Event>)
    requires forall j :: 0 <= j < |a| ==> a[j].Exec? || a[j] == Wait
    requires tail == [] || tail == [Post]
    requires t == [Prep] + a + tail
    ensures forall j :: 0 <= j < |t| ==> !t[j].CallFallback?
    ensures tail == [] ==> Post !in t
  {
    forall j | 0 <= j < |t|
      ensures !t[j].CallFallback? && (tail == [] ==> t[j] != Post)
    {
      if 0 < j <= |a| {
        assert t[j] == a[j - 1];
      }
    }
  }

  /** After `max_retries` failed attempts the fallback is called exactly
      once, with the last attempt's exception; the default fallback
      re-raises it, so the run raises that exception and post is not
      called. */
  lemma FallbackAfterLastFailure<R>(cfg: Config, prep: Option<Exc>, exec: nat -> Attempt<R>, fallback: Exc -> Fallback<R>,
                                    post: Option<R> -> Attempt<Option<Label>>)
    requires prep.None?
    requires cfg.maxRetries > 0 && forall j :: 0 <= j < cfg.maxRetries ==> Retried(exec(j))
    ensures var r := NodeRunSpec(cfg, prep, exec, fallback, post);
            var e := exec(cfg.maxRetries - 1).exc;
            && |ExecsOf(r.trace)| == cfg.maxRetries
            && (forall j :: 0 <= j < |r.trace| && r.trace[j].CallFallback? ==> r.trace[j] == CallFallback(e))
            && (exists j :: 0 <= j < |r.trace| && r.trace[j] == CallFallback(e))
            && (forall i, j :: 0 <= i < j < |r.trace| && r.trace[i].CallFallback? ==> !r.trace[j].CallFallback?)
            && (fallback(e) == Reraise ==> r.outcome == Raised(e) && Post !in r.trace)
  {
    FirstStopNone(exec, cfg.maxRetries);
    ExecsOfRun(cfg, prep, exec, fallback, post);
    var e := exec(cfg.maxRetries - 1).exc;
    var waits := cfg.wait > 0;
    var a := Attempts(cfg.maxRetries, waits);
    var r := NodeRunSpec(cfg, prep, exec, fallback, post);
    if fallback(e).Recover? {
      assert r.trace == [Prep] + a + [CallFallback(e)] + [Post];
      FramedFallback(cfg.maxRetries, waits, e, [Post], r.trace);
    } else {
      assert r.trace == [Prep] + a + [CallFallback(e)] + [];
      FramedFallback(cfg.maxRetries, waits, e, [], r.trace);
      assert fallback(e) == Reraise ==> r.outcome == Raised(e);
    }
    OnlyFallbackFacts(r.trace, |a| + 1, e);
  }

  /** An attempt that raises something other than an `Exception` (a
      `KeyboardInterrupt` or a `SystemExit`, say) is not retried: after the
      attempts up to it, the run raises it, with no fallback and no post. */
  lemma UncaughtEndsRun<R>(cfg: Config, prep: Option<Exc>, exec: nat -> Attempt<R>, fallback: Exc -> Fallback<R>,
                           post: Option<R> -> Attempt<Option<Label>>, k: nat)
    requires prep.None?
    requires k < cfg.maxRetries && exec(k).Failed? && !exec(k).exc.IsError()
    requires forall j :: 0 <= j < k ==> Retried(exec(j))
    ensures var r := NodeRunSpec(cfg, prep, exec, fallback, post);
            && r.outcome == Raised(exec(k).exc)
            && ExecsOf(r.trace) == seq(k + 1, i => i)
            && Post !in r.trace
            && forall j :: 0 <= j < |r.trace| ==> !r.trace[j].CallFallback?
  {
    FirstStopIs(exec, cfg.maxRetries, k);
    ExecsOfRun(cfg, prep, exec, fallback, post);
    AttemptsStopAtFirstSuccess(cfg, prep, exec, fallback, post);
  }

  /** The trace calls the fallback once, at index `i`, with `e`. */
  predicate OnlyFallbackAt(t: seq<Event>, i: nat, e: Exc) {
    && i < |t| && t[i] == CallFallback(e)
    && forall j :: 0 <= j < |t| && t[j].CallFallback? ==> j == i
  }

  lemma OnlyFallbackFacts(t: seq<Event>, i: nat, e: Exc)
    requires OnlyFallbackAt(t, i, e)
    ensures forall j :: 0 <= j < |t| && t[j].CallFallback? ==> t[j] == CallFallback(e)
    ensures exists j :: 0 <= j < |t| && t[j] == CallFallback(e)
    ensures forall i, j :: 0 <= i < j < |t| && t[i].CallFallback? ==> !t[j].CallFallback?
  {
  }

  /** In `[Prep] + Attempts(n, waits) + [CallFallback(e)] + rest`, where
      `rest` calls no fallback, the one fallback call is the one after the
      attempts. */
  lemma FramedFallback(n: nat, waits: bool, e: Exc, rest: seq<Event>, t: seq<Event>)
    requires forall j :: 0 <= j < |rest| ==> !rest[j].CallFallback?
    requires t == [Prep] + Attempts(n, waits) + [CallFallback(e)] + rest
    ensures OnlyFallbackAt(t, |Attempts(n, waits)| + 1, e)
    ensures Post !in rest ==> Post !in t
  {
    AttemptsShape(n, waits);
    var a := Attempts(n, waits);
    forall j | 0 <= j < |t| && j != |a| + 1
      ensures !t[j].CallFallback?
      ensures Post !in rest ==> t[j] != Post
    {
      if 1 <= j <= |a| {
        assert t[j] == a[j - 1];
      } else if j > |a| + 1 {
        assert t[j] == rest[j - |a| - 2];
      }
    }
  }

  /** Every wait in the trace sits between two attempts. */
  predicate WaitsBetweenAttempts(t: seq<Event>) {
    forall j :: 0 <= j < |t| && t[j] == Wait ==> 0 < j < |t| - 1 && t[j - 1].Exec? && t[j + 1].Exec?
  }

  /** The wait happens only between two attempts, never after the last
      one, and never when `wait <= 0`. */
  lemma WaitOnlyBetweenAttempts<R>(cfg: Config, prep: Option<Exc>, exec: nat -> Attempt<R>, fallback: Exc -> Fallback<R>,
                                   post: Option<R> -> Attempt<Option<Label>>)
    ensures var r := NodeRunSpec(cfg, prep, exec, fallback, post);
            && (cfg.wait <= 0 ==> Wait !in r.trace)
            && WaitsBetweenAttempts(r.trace)
  {
    var waits := cfg.wait > 0;
    var r := NodeRunSpec(cfg, prep, exec, fallback, post);
    if prep.Some? {
      assert r.trace == [Prep];
    } else if cfg.maxRetries > 0 {
      match FirstStop(exec, cfg.maxRetries)
      case Some(k) =>
        if exec(k).Returned? {
          assert r.trace == [Prep] + Attempts(k + 1, waits) + [Post];
          FramedWaits(k + 1, waits, [Post], r.trace);
        } else {
          assert r.trace == [Prep] + Attempts(k + 1, waits) + [];
          FramedWaits(k + 1, waits, [], r.trace);
        }
      case None =>
        var e := exec(cfg.maxRetries - 1).exc;
        var a := Attempts(cfg.maxRetries, waits);
        if fallback(e).Recover? {
          assert r.trace == [Prep] + a + [CallFallback(e)] + [Post];
          assert r.trace == [Prep] + a + [CallFallback(e), Post];
          FramedWaits(cfg.maxRetries, waits, [CallFallback(e), Post], r.trace);
        } else {
          assert r.trace == [Prep] + a + [CallFallback(e)];
          FramedWaits(cfg.maxRetries, waits, [CallFallback(e)], r.trace);
        }
    } else {
      assert r.trace == [Prep, Post];
    }
  }

  /** In `[Prep] + Attempts(n, waits) + tail`, where `tail` does not wait,
      every wait sits between two attempts. */
  lemma FramedWaits(n: nat, waits: bool, tail: seq<Event>, t: seq<Event>)
    requires forall j :: 0 <= j < |tail| ==> tail[j] != Wait
    requires t == [Prep] + Attempts(n, waits) + tail
    ensures !waits ==> Wait !in t
    ensures WaitsBetweenAttempts(t)
  {
    AttemptsShape(n, waits);
    var a := Attempts(n, waits);
    forall j | 1 <= j <= |a|
      ensures t[j] == a[j - 1]
    {
    }
    forall j | 0 <= j < |t| && !(1 <= j <= |a|)
      ensures t[j] != Wait
    {
      if j > |a| {
        assert t[j] == tail[j - |a| - 1];
      }
    }
    forall j | 1 <= j <= |a| && t[j] == Wait
      ensures 1 < j < |a| && t[j - 1].Exec? && t[j + 1].Exec?
    {
      assert a[j - 1] == Wait;
      assert t[j - 1] == a[j - 2] && t[j + 1] == a[j];
    }
  }

  /** With `max_retries <= 0` exec is never called, and post, when prep
      returned, receives None. */
  lemma NoRetriesNoExec<R>(cfg: Config, prep: Option<Exc>, exec: nat -> Attempt<R>, fallback: Exc -> Fallback<R>,
                           post: Option<R> -> Attempt<Option<Label>>)
    requires cfg.maxRetries <= 0
    ensures var r := NodeRunSpec(cfg, prep, exec, fallback, post);
            && ExecsOf(r.trace) == []
            && r.received == None
            && (prep.None? ==> r.outcome == AfterPost(post(None)))
  {
    ExecsOfRun(cfg, prep, exec, fallback, post);
  }
}
