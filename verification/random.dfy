/** Python's `random` module as an oracle: an unbounded stream of draws in
    [0, 1) and a read position. `random()`, `choice`, `randint` and
    `shuffle` each consume draws from the stream. */
module Random {
  import opened Base

  datatype Rng = Rng(draw: nat -> real, pos: nat)

  ghost predicate Valid(g: Rng) {
    forall k: nat :: 0.0 <= g.draw(k) < 1.0
  }

  /** `random.random()`. */
  function Next(g: Rng): (r: (real, Rng))
    requires Valid(g)
    ensures 0.0 <= r.0 < 1.0
    ensures r.1 == g.(pos := g.pos + 1) && Valid(r.1)
  {
    (g.draw(g.pos), g.(pos := g.pos + 1))
  }

  /** A uniform index below `n` from one draw. */
  function Below(g: Rng, n: nat): (r: (nat, Rng))
    requires Valid(g) && n > 0
    ensures r.0 < n
    ensures r.1 == g.(pos := g.pos + 1) && Valid(r.1)
  {
    var (u, g') := Next(g);
    var x := u * (n as real);
    assert 0.0 <= x < n as real by {
      assert u * (n as real) < 1.0 * (n as real);
    }
    (x.Floor as nat, g')
  }

  /** `random.choice(xs)`. */
  function Choice<T>(g: Rng, xs: seq<T>): (r: (T, Rng))
    requires Valid(g) && xs != []
    ensures r.0 in xs
    ensures r.1 == g.(pos := g.pos + 1) && Valid(r.1)
  {
    var (i, g') := Below(g, |xs|);
    (xs[i], g')
  }

  /** `random.randint(a, b)`: `None` is the ValueError raised when the
      range is empty. */
  function RandInt(g: Rng, a: int, b: int): (r: Option<(int, Rng)>)
    requires Valid(g)
    ensures r.None? <==> b < a
    ensures r.Some? ==> a <= r.value.0 <= b && Valid(r.value.1)
  {
    if b < a then None
    else
      var (i, g') := Below(g, b - a + 1);
      Some((a + i, g'))
  }

  function Swap<T>(xs: seq<T>, i: nat, j: nat): (r: seq<T>)
    requires i < |xs| && j < |xs|
    ensures |r| == |xs| && multiset(r) == multiset(xs)
    ensures r[i] == xs[j] && r[j] == xs[i]
    ensures forall k :: 0 <= k < |xs| && k != i && k != j ==> r[k] == xs[k]
  {
    xs[i := xs[j]][j := xs[i]]
  }

  /** The rounds `i, i-1, ..., 1` of `random.shuffle`'s Fisher-Yates loop. */
  function ShuffleDown<T>(xs: seq<T>, i: nat, g: Rng): (r: (seq<T>, Rng))
    requires Valid(g) && i < |xs|
    ensures multiset(r.0) == multiset(xs) && |r.0| == |xs|
    ensures Valid(r.1) && r.1.pos == g.pos + i
    decreases i
  {
    if i == 0 then (xs, g)
    else
      var (j, g') := Below(g, i + 1);
      ShuffleDown(Swap(xs, i, j), i - 1, g')
  }

  /** `random.shuffle(xs)`, returning the shuffled list. */
  function Shuffle<T>(xs: seq<T>, g: Rng): (r: (seq<T>, Rng))
    requires Valid(g)
    ensures multiset(r.0) == multiset(xs) && |r.0| == |xs|
    ensures Valid(r.1)
  {
    if xs == [] then (xs, g) else ShuffleDown(xs, |xs| - 1, g)
  }
}
