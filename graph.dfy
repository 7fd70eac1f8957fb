/** The graph container: a set of known node identifiers and, per node, the list
    of undirected edges stored under the larger of their two endpoints. */
module Graphs {

  /** One stored edge; the node it hangs under is the larger endpoint. */
  datatype Edge = Edge(to: int, weight: real)

  function Max(a: int, b: int): int { if a < b then b else a }
  function Min(a: int, b: int): int { if a < b then a else b }

  /** Every stored edge points down to a smaller-or-equal endpoint, and both
      endpoints of every stored edge are known nodes. */
  ghost predicate WellFormed(nodes: set<int>, edges: map<int, seq<Edge>>)
  {
    forall f :: f in edges ==>
      f in nodes && forall e :: e in edges[f] ==> e.to <= f && e.to in nodes
  }

  /** The edge list of `f`; an absent key reads as the empty list. */
  function EdgesAt(edges: map<int, seq<Edge>>, f: int): seq<Edge>
  {
    if f in edges then edges[f] else []
  }

  /** The edge map after recording the undirected edge from–to of the given weight. */
  function WithEdge(edges: map<int, seq<Edge>>, from: int, to: int, weight: real): map<int, seq<Edge>>
  {
    var f := Max(from, to);
    edges[f := EdgesAt(edges, f) + [Edge(Min(from, to), weight)]]
  }

  /** The number of stored edges, summed over the lists in any key order. */
  ghost function TotalEdges(m: map<int, seq<Edge>>): nat
    decreases |m.Keys|
  {
    if forall k :: k !in m then 0
    else
      var k :| k in m;
      assert (m - {k}).Keys == m.Keys - {k};
      |m[k]| + TotalEdges(m - {k})
  }

  /** The total does not depend on which key is taken out first. */
  lemma {:induction false} TotalEdgesRemove(m: map<int, seq<Edge>>, k: int)
    requires k in m
    ensures TotalEdges(m) == |m[k]| + TotalEdges(m - {k})
    decreases |m.Keys|
  {
    var k' :| k' in m && TotalEdges(m) == |m[k']| + TotalEdges(m - {k'});
    if k' != k {
      assert (m - {k'}).Keys == m.Keys - {k'};
      assert (m - {k}).Keys == m.Keys - {k};
      TotalEdgesRemove(m - {k'}, k);
      TotalEdgesRemove(m - {k}, k');
      assert m - {k'} - {k} == m - {k} - {k'};
    }
  }

  /** Recording one edge adds exactly one to the stored-edge total. */
  lemma WithEdgeAddsOne(edges: map<int, seq<Edge>>, from: int, to: int, weight: real)
    ensures TotalEdges(WithEdge(edges, from, to, weight)) == TotalEdges(edges) + 1
  {
    var f := Max(from, to);
    var m := WithEdge(edges, f, Min(from, to), weight);
    assert m == WithEdge(edges, from, to, weight);
    TotalEdgesRemove(m, f);
    assert m - {f} == edges - {f};
    if f in edges {
      TotalEdgesRemove(edges, f);
    } else {
      assert edges - {f} == edges;
    }
  }

  /** Recording from–to and recording to–from give the same edge map. */
  lemma WithEdgeSymmetric(edges: map<int, seq<Edge>>, a: int, b: int, weight: real)
    ensures WithEdge(edges, a, b, weight) == WithEdge(edges, b, a, weight)
  {
  }

  /** Recording an edge keeps the container well formed. */
  lemma WithEdgeWellFormed(nodes: set<int>, edges: map<int, seq<Edge>>, from: int, to: int, weight: real)
    requires WellFormed(nodes, edges)
    ensures WellFormed(nodes + {from, to}, WithEdge(edges, from, to, weight))
  {
  }

  /** Registering two endpoints grows the node set by the endpoints it did not know. */
  lemma {:induction false} NodeGrowth(nodes: set<int>, from: int, to: int)
    ensures |nodes + {from, to}| == |nodes| + |{from, to} - nodes|
    ensures |nodes| <= |nodes + {from, to}| <= |nodes| + 2
    ensures from in nodes && to in nodes <==> |nodes + {from, to}| == |nodes|
  {
    var extra := {from, to} - nodes;
    assert nodes + {from, to} == nodes + extra;
    assert nodes !! extra;
    assert |extra| <= 2 by {
      assert extra <= {from, to};
      if from == to { assert {from, to} == {from}; }
    }
    if !(from in nodes && to in nodes) {
      assert from !in nodes ==> from in extra;
      assert to !in nodes ==> to in extra;
    }
  }

  /** The graph object: `nodes` and `edges` are updated in place by AddEdge. */
  class Graph {
    var nodes: set<int>
    var edges: map<int, seq<Edge>>

    ghost predicate Valid()
      reads this
    {
      WellFormed(nodes, edges)
    }

    /** `nCount` is only a capacity hint for the edge map. */
    constructor (nCount: int)
      ensures Valid()
      ensures nodes == {} && edges == map[]
      ensures NodeCount() == 0 && TotalEdges(edges) == 0
    {
      nodes := {};
      edges := map[];
    }

    method AddEdge(from: int, to: int, weight: real)
      requires Valid()
      modifies this
      ensures Valid()
      ensures nodes == old(nodes) + {from, to}
      ensures edges == WithEdge(old(edges), from, to, weight)
      ensures edges.Keys == old(edges).Keys + {Max(from, to)}
      ensures edges[Max(from, to)] == EdgesAt(old(edges), Max(from, to)) + [Edge(Min(from, to), weight)]
      ensures forall k :: k in old(edges) && k != Max(from, to) ==> edges[k] == old(edges)[k]
      ensures TotalEdges(edges) == old(TotalEdges(edges)) + 1
      ensures old(NodeCount()) <= NodeCount() <= old(NodeCount()) + 2
      ensures from in old(nodes) && to in old(nodes) ==> NodeCount() == old(NodeCount())
    {
      var f := Max(from, to);
      var t := Min(from, to);
      NodeGrowth(nodes, from, to);
      WithEdgeAddsOne(edges, from, to, weight);
      WithEdgeWellFormed(nodes, edges, from, to, weight);
      nodes := nodes + {f};
      nodes := nodes + {t};
      assert nodes == old(nodes) + {from, to};
      edges := edges[f := EdgesAt(edges, f) + [Edge(t, weight)]];
    }

    /** The number of distinct known nodes: zero exactly when none is known. */
    function NodeCount(): (n: nat)
      reads this
      ensures n == 0 <==> nodes == {}
    {
      |nodes|
    }

    /** Sums the list lengths, visiting the keys in an arbitrary order as Go's map range does. */
    method EdgeCount() returns (count: nat)
      ensures count == TotalEdges(edges)
    {
      count := 0;
      var rest := edges;
      while exists k :: k in rest
        invariant count + TotalEdges(rest) == TotalEdges(edges)
        decreases |rest.Keys|
      {
        var k :| k in rest;
        TotalEdgesRemove(rest, k);
        assert (rest - {k}).Keys == rest.Keys - {k};
        count := count + |rest[k]|;
        rest := rest - {k};
      }
    }
  }
}
