/** The node execution substrate of core/base_node.py: one `run` is prep,
    a bounded retry loop over exec, an optional fallback, then post; the
    label post returns is looked up in the node's successor map.

    prep, exec, exec_fallback and post are oracles: `prep` is what prep
    raises, if anything (what it returns is folded into exec), `exec(k)` is
    what the k-th attempt of this run does (it is asked to be idempotent, so
    the attempt number is all that distinguishes two calls), `fallback(e)`
    is what exec_fallback does with the last exception, and `post(r)` is
    what post does for the result r it receives: it returns a label or
    `None` (Python's None), or it raises. */
module Nodes {
  import opened Base

  /** One call of exec: it returns a value or raises. */
  datatype Attempt<R> = Returned(value: R) | Failed(exc: Exc)

  /** An attempt that raised an `Exception`, which the retry loop's
      `except Exception` catches. Any other raise leaves the loop. */
  predicate Retried<R>(a: Attempt<R>) {
    a.Failed? && a.exc.IsError()
  }

  /** What exec_fallback does. The default implementation re-raises. */
  datatype Fallback<R> = Reraise | Recover(value: R) | RaiseOther(exc: Exc)

  /** The observable steps of one run, in order. `Wait` is the sleep
      between two attempts. */
  datatype Event = Prep | Exec(attempt: nat) | Wait | CallFallback(exc: Exc) | Post

  /** The retry policy set by the constructor. */
  datatype Config = Config(maxRetries: int, wait: int)

  /** The result of one run: its trace, the value post received (when it
      was called), and the outcome. */
  datatype NodeRun<R> = NodeRun(trace: seq<Event>, received: Option<R>, outcome: Outcome)

  const DefaultConfig := Config(1, 0)

  // ---------------------------------------------------------------------
  // Reference definition of a run
  // ---------------------------------------------------------------------

  /** The first attempt in [k, bound) that the loop does not retry (it
      returns, or raises something other than an `Exception`), if any. */
  function FirstStopFrom<R>(exec: nat -> Attempt<R>, bound: int, k: nat): (r: Option<nat>)
    ensures r.Some? ==> k <= r.value < bound && !Retried(exec(r.value))
    ensures r.Some? ==> forall j :: k <= j < r.value ==> Retried(exec(j))
    ensures r.None? ==> forall j :: k <= j < bound ==> Retried(exec(j))
    decreases bound - k
  {
    if bound <= k then None
    else if !Retried(exec(k)) then Some(k)
    else FirstStopFrom(exec, bound, k + 1)
  }

  function FirstStop<R>(exec: nat -> Attempt<R>, bound: int): Option<nat> {
    FirstStopFrom(exec, bound, 0)
  }

  /** `n` attempts, numbered 0..n-1, with a wait between consecutive ones
      when `waits` holds. */
  function Attempts(n: nat, waits: bool): seq<Event>
    decreases n
  {
    if n == 0 then []
    else if n == 1 then [Exec(0)]
    else Attempts(n - 1, waits) + (if waits then [Wait] else []) + [Exec(n - 1)]
  }

  /** The outcome of a run that reached post: post's label, "default" for
      `None`, or what post raised. */
  function AfterPost(a: Attempt<Option<Label>>): (o: Outcome)
    ensures o.Action? <==> a.Returned?
    ensures a.Returned? ==> o.action == OrDefault(a.value)
    ensures a.Failed? ==> o.exc == a.exc
  {
    match a
    case Returned(l) => Action(OrDefault(l))
    case Failed(e) => Raised(e)
  }

  /** What one run does, stated from the first attempt that is not retried
      rather than from the retry loop. */
  function NodeRunSpec<R>(cfg: Config, prep: Option<Exc>, exec: nat -> Attempt<R>, fallback: Exc -> Fallback<R>,
                          post: Option<R> -> Attempt<Option<Label>>): NodeRun<R>
  {
    var waits := cfg.wait > 0;
    if prep.Some? then
      NodeRun([Prep], None, Raised(prep.value))
    else if cfg.maxRetries <= 0 then
      NodeRun([Prep, Post], None, AfterPost(post(None)))
    else
      match FirstStop(exec, cfg.maxRetries)
      case Some(k) =>
        if exec(k).Returned? then
          var v := exec(k).value;
          NodeRun([Prep] + Attempts(k + 1, waits) + [Post], Some(v), AfterPost(post(Some(v))))
        else
          NodeRun([Prep] + Attempts(k + 1, waits), None, Raised(exec(k).exc))
      case None =>
        var e := exec(cfg.maxRetries - 1).exc;
        var pre := [Prep] + Attempts(cfg.maxRetries, waits) + [CallFallback(e)];
        match fallback(e)
        case Recover(v) => NodeRun(pre + [Post], Some(v), AfterPost(post(Some(v))))
        case Reraise => NodeRun(pre, None, Raised(e))
        case RaiseOther(e2) => NodeRun(pre, None, Raised(e2))
  }

  // ---------------------------------------------------------------------
  // Node.run, as the retry loop is written
  // ---------------------------------------------------------------------

  /** Node.run: prep, then attempts while `cur_retry < max_retries`, the
      fallback after the last failed attempt, a wait between attempts when
      `wait > 0`, and post unless the fallback raised. An attempt that
      raises something other than an `Exception` ends the run with it, and
      so does anything prep or post raises. */
  method Run<R>(cfg: Config, prep: Option<Exc>, exec: nat -> Attempt<R>, fallback: Exc -> Fallback<R>,
                post: Option<R> -> Attempt<Option<Label>>) returns (r: NodeRun<R>)
    ensures r == NodeRunSpec(cfg, prep, exec, fallback, post)
  {
    var waits := cfg.wait > 0;
    var trace := [Prep];
    if prep.Some? {
      return NodeRun(trace, None, Raised(prep.value));
    }
    var cur: nat := 0;
    var execRes: Option<R> := None;
    while cur < cfg.maxRetries
      invariant cur == 0 || cur <= cfg.maxRetries
      invariant cfg.maxRetries <= 0 ==> trace == [Prep] && execRes.None?
      invariant forall j :: 0 <= j < cur ==> Retried(exec(j))
      invariant cur < cfg.maxRetries ==> execRes.None?
      invariant cur < cfg.maxRetries ==>
                  trace == [Prep] + Attempts(cur, waits) + (if cur > 0 && waits then [Wait] else [])
      invariant cur >= cfg.maxRetries && cur > 0 ==>
                  && trace == [Prep] + Attempts(cur, waits) + [CallFallback(exec(cur - 1).exc)]
                  && execRes.Some? && fallback(exec(cur - 1).exc) == Recover(execRes.value)
      decreases cfg.maxRetries - cur
    {
      AttemptsGrow(cur, waits);
      trace := trace + [Exec(cur)];
      match exec(cur) {
        case Returned(v) =>
          execRes := Some(v);
          assert FirstStop(exec, cfg.maxRetries) == Some(cur) by { FirstStopIs(exec, cfg.maxRetries, cur); }
          trace := trace + [Post];
          return NodeRun(trace, execRes, AfterPost(post(execRes)));
        case Failed(e) =>
          if !e.IsError() {
            assert FirstStop(exec, cfg.maxRetries) == Some(cur) by { FirstStopIs(exec, cfg.maxRetries, cur); }
            return NodeRun(trace, None, Raised(e));
          }
          cur := cur + 1;
          if cur >= cfg.maxRetries {
            trace := trace + [CallFallback(e)];
            assert FirstStop(exec, cfg.maxRetries) == None by { FirstStopNone(exec, cfg.maxRetries); }
            match fallback(e) {
              case Recover(v) =>
                execRes := Some(v);
              case Reraise =>
                return NodeRun(trace, None, Raised(e));
              case RaiseOther(e2) =>
                return NodeRun(trace, None, Raised(e2));
            }
          } else if cfg.wait > 0 {
            trace := trace + [Wait];
          }
      }
    }
    if cfg.maxRetries > 0 {
      assert cur == cfg.maxRetries;
      assert FirstStop(exec, cfg.maxRetries) == None by { FirstStopNone(exec, cfg.maxRetries); }
      assert fallback(exec(cfg.maxRetries - 1).exc) == Recover(execRes.value);
    } else {
      assert trace == [Prep];
    }
    trace := trace + [Post];
    r := NodeRun(trace, execRes, AfterPost(post(execRes)));
  }

  lemma AttemptsGrow(n: nat, waits: bool)
    ensures [Prep] + Attempts(n, waits) + (if n > 0 && waits then [Wait] else []) + [Exec(n)]
            == [Prep] + Attempts(n + 1, waits)
  {
    if n > 0 {
      assert [Prep] + Attempts(n, waits) + (if waits then [Wait] else []) + [Exec(n)]
          == [Prep] + (Attempts(n, waits) + (if waits then [Wait] else []) + [Exec(n)]);
    }
  }

  lemma FirstStopIs<R>(exec: nat -> Attempt<R>, bound: int, k: nat)
    requires k < bound && !Retried(exec(k))
    requires forall j :: 0 <= j < k ==> Retried(exec(j))
    ensures FirstStop(exec, bound) == Some(k)
  {
  }

  lemma FirstStopNone<R>(exec: nat -> Attempt<R>, bound: int)
    requires forall j :: 0 <= j < bound ==> Retried(exec(j))
    ensures FirstStop(exec, bound) == None
  {
  }
}
