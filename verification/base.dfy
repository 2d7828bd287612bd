/** Shared vocabulary of the build loop: optional values, action labels,
    exceptions and the Python slice `xs[:n]`. */
module Base {

  datatype Option<+T> = None | Some(value: T) {
    function GetOr(default: T): T {
      match this
      case Some(v) => v
      case None => default
    }
  }

  /** A routing label returned by a node's post phase. */
  type Label = string

  const DefaultLabel: Label := "default"
  const SuccessLabel: Label := "success"
  const FailLabel: Label := "fail"

  /** The kind of an exception, as the handlers of the build loop tell
      kinds apart: an `Exception` (what `except Exception` catches), a
      `KeyboardInterrupt`, or another `BaseException` that is not an
      `Exception`, such as `SystemExit`. */
  datatype ExcKind = Error | Interrupt | Exit

  /** An exception: its kind and its message. */
  datatype Exc = Exc(kind: ExcKind, message: string) {
    /** `isinstance(e, Exception)`. */
    predicate IsError() { kind == Error }
  }

  /** What running a node (or a flow) ends with: an action label, or an
      exception that propagates to the caller. */
  datatype Outcome = Action(action: Label) | Raised(exc: Exc)

  /** `action if action is not None else "default"`. */
  function OrDefault(action: Option<Label>): (r: Label)
    ensures action.Some? ==> r == action.value
    ensures action.None? ==> r == DefaultLabel
  {
    action.GetOr(DefaultLabel)
  }

  /** Python truthiness of an optional string: present and non-empty. */
  predicate Truthy(s: Option<string>) {
    s.Some? && s.value != ""
  }

  /** Python's `xs[:n]`: a negative `n` counts from the end. */
  function TakePy<T>(xs: seq<T>, n: int): (r: seq<T>)
    ensures 0 <= n ==> |r| == if n <= |xs| then n else |xs|
    ensures n < 0 ==> |r| == if -n <= |xs| then |xs| + n else 0
    ensures r <= xs
  {
    if 0 <= n then
      if n <= |xs| then xs[..n] else xs
    else
      if -n <= |xs| then xs[..|xs| + n] else []
  }

  /** Every entry of `ps` moved up by `k`. */
  function Shift(ps: seq<nat>, k: nat): (r: seq<nat>)
    ensures |r| == |ps| && forall i :: 0 <= i < |ps| ==> r[i] == ps[i] + k
  {
    seq(|ps|, i requires 0 <= i < |ps| => ps[i] + k)
  }

  /** The entries of `src` at the indices `ps`, in the order of `ps`. */
  function Picks<T>(src: seq<T>, ps: seq<nat>): (r: seq<T>)
    requires forall k :: 0 <= k < |ps| ==> ps[k] < |src|
    ensures |r| == |ps| && forall k :: 0 <= k < |ps| ==> r[k] == src[ps[k]]
  {
    seq(|ps|, k requires 0 <= k < |ps| => src[ps[k]])
  }

  /** Picking from `src` at indices moved up by one picks from its tail,
      and index 0 picks its head. */
  lemma PicksShift<T>(src: seq<T>, ps: seq<nat>)
    requires src != [] && forall k :: 0 <= k < |ps| ==> ps[k] < |src| - 1
    ensures Picks(src, Shift(ps, 1)) == Picks(src[1..], ps)
    ensures Picks(src, [0] + Shift(ps, 1)) == [src[0]] + Picks(src[1..], ps)
  {
    var qs := [0] + Shift(ps, 1);
    assert forall k :: 0 < k < |qs| ==> qs[k] == Shift(ps, 1)[k - 1];
  }

  /** Python's `xs[-n:]` for `n > 0`: the last `n` elements, or all of them. */
  function LastPy<T>(xs: seq<T>, n: nat): (r: seq<T>)
    ensures |r| == if n <= |xs| then n else |xs|
    ensures forall i :: 0 <= i < |r| ==> r[i] == xs[|xs| - |r| + i]
  {
    if n <= |xs| then xs[|xs| - n..] else xs
  }
}
