/** The successor maps of core/base_node.py: `a >> b` and `a - "x" >> b`
    set an entry of a node's `successors` dictionary, and a chain of `>>`
    wires each node to the next. */
module Successors {
  import opened Base

  /** Every node's successor map; a node absent from the map has none. */
  type Graph<N> = map<N, map<Label, N>>

  function SuccessorsOf<N>(g: Graph<N>, a: N): map<Label, N> {
    if a in g then g[a] else map[]
  }

  /** `a - label >> b`: sets `a.successors[label] = b`. */
  function WireOn<N(!new)>(g: Graph<N>, a: N, lbl: Label, b: N): (g': Graph<N>)
    ensures lbl in SuccessorsOf(g', a) && SuccessorsOf(g', a)[lbl] == b
    ensures forall l :: l != lbl ==>
              (l in SuccessorsOf(g', a) <==> l in SuccessorsOf(g, a))
              && (l in SuccessorsOf(g, a) ==> SuccessorsOf(g', a)[l] == SuccessorsOf(g, a)[l])
    ensures forall n :: n != a ==> SuccessorsOf(g', n) == SuccessorsOf(g, n)
  {
    g[a := SuccessorsOf(g, a)[lbl := b]]
  }

  /** `a >> b`: sets `a.successors["default"] = b`. */
  function Wire<N(!new)>(g: Graph<N>, a: N, b: N): Graph<N> {
    WireOn(g, a, DefaultLabel, b)
  }

  /** `n0 >> n1 >> ... >> nk`: `>>` returns its right operand, so each
      node is wired to the next one. */
  function Chain<N(!new)>(g: Graph<N>, nodes: seq<N>): (r: Graph<N>)
    decreases |nodes|
  {
    if |nodes| < 2 then g else Chain(Wire(g, nodes[0], nodes[1]), nodes[1..])
  }

  /** Rewiring the same label overwrites it; wiring two labels on one node
      keeps both. */
  lemma RewireOverwrites<N(!new)>(g: Graph<N>, a: N, lbl: Label, b: N, c: N)
    ensures WireOn(WireOn(g, a, lbl, b), a, lbl, c) == WireOn(g, a, lbl, c)
  {
    assert SuccessorsOf(g, a)[lbl := b][lbl := c] == SuccessorsOf(g, a)[lbl := c];
  }

  /** In a chain of distinct nodes each node's default successor is the
      next one, and nodes outside the chain are untouched. */
  lemma {:induction false} ChainWiresConsecutive<N(!new)>(g: Graph<N>, nodes: seq<N>)
    requires forall i, j :: 0 <= i < j < |nodes| ==> nodes[i] != nodes[j]
    ensures forall i :: 0 <= i < |nodes| - 1 ==>
              DefaultLabel in SuccessorsOf(Chain(g, nodes), nodes[i])
              && SuccessorsOf(Chain(g, nodes), nodes[i])[DefaultLabel] == nodes[i + 1]
    ensures forall n :: n !in nodes ==> SuccessorsOf(Chain(g, nodes), n) == SuccessorsOf(g, n)
    decreases |nodes|
  {
    if |nodes| >= 2 {
      var g1 := Wire(g, nodes[0], nodes[1]);
      ChainWiresConsecutive(g1, nodes[1..]);
      var c := Chain(g, nodes);
      assert c == Chain(g1, nodes[1..]);
      forall i | 0 <= i < |nodes| - 1
        ensures DefaultLabel in SuccessorsOf(c, nodes[i]) && SuccessorsOf(c, nodes[i])[DefaultLabel] == nodes[i + 1]
      {
        if i == 0 {
          assert nodes[0] !in nodes[1..];
        } else {
          assert nodes[1..][i - 1] == nodes[i];
        }
      }
      forall n | n !in nodes
        ensures SuccessorsOf(c, n) == SuccessorsOf(g, n)
      {
        assert n !in nodes[1..];
      }
    }
  }
}
