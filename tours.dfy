/** Paths and closed tours over the solver's weight lookup: which of them are
    walks and cycles of the graph, what they cost, and what reversing one
    segment of a tour does to it. */
module Tours {

  /** The solver's view of the graph: W[u][v] is the weight of the edge u–v. */
  type Weights = map<int, map<int, real>>

  predicate HasEdge(W: Weights, u: int, v: int)
  {
    u in W && v in W[u]
  }

  /** A two-level lookup that reads as 0.0 when either key is absent. */
  function Wt(W: Weights, u: int, v: int): real
  {
    if HasEdge(W, u, v) then W[u][v] else 0.0
  }

  /** An undirected lookup: every edge is present both ways with one weight. */
  ghost predicate Symmetric(W: Weights)
  {
    forall u, v :: HasEdge(W, u, v) ==> HasEdge(W, v, u) && W[u][v] == W[v][u]
  }

  lemma WtSymmetric(W: Weights, u: int, v: int)
    requires Symmetric(W)
    ensures Wt(W, u, v) == Wt(W, v, u)
  {
  }

  predicate Distinct(p: seq<int>)
  {
    forall a, b :: 0 <= a < b < |p| ==> p[a] != p[b]
  }

  /** Consecutive nodes of `p` are joined by edges. */
  ghost predicate IsWalk(W: Weights, p: seq<int>)
  {
    forall k :: 0 <= k < |p| - 1 ==> HasEdge(W, p[k], p[k + 1])
  }

  /** `p` is a closed tour of the graph: a walk whose last node leads back to its first. */
  ghost predicate IsCycle(W: Weights, p: seq<int>)
  {
    |p| > 0 && IsWalk(W, p) && HasEdge(W, p[|p| - 1], p[0])
  }

  /** Sum of the weights of the edges between consecutive nodes. */
  function PathCost(W: Weights, p: seq<int>): real
    decreases |p|
  {
    if |p| <= 1 then 0.0 else Wt(W, p[0], p[1]) + PathCost(W, p[1..])
  }

  /** The cost of `p` read as a closed tour: its path cost plus the closing edge. */
  function TourCost(W: Weights, p: seq<int>): real
  {
    if p == [] then 0.0 else PathCost(W, p) + Wt(W, p[|p| - 1], p[0])
  }

  /** Gluing two paths adds the cost of the joining edge. */
  lemma {:induction false} PathCostConcat(W: Weights, a: seq<int>, b: seq<int>)
    requires a != [] && b != []
    ensures PathCost(W, a + b) == PathCost(W, a) + Wt(W, a[|a| - 1], b[0]) + PathCost(W, b)
    decreases |a|
  {
    if |a| == 1 {
      assert (a + b)[1..] == b;
    } else {
      assert (a + b)[1..] == a[1..] + b;
      PathCostConcat(W, a[1..], b);
    }
  }

  /** Extending a path by one node adds the cost of the new last edge. */
  lemma PathCostSnoc(W: Weights, p: seq<int>, x: int)
    requires p != []
    ensures PathCost(W, p + [x]) == PathCost(W, p) + Wt(W, p[|p| - 1], x)
  {
    PathCostConcat(W, p, [x]);
  }

  /** The whole sequence read backwards. */
  function Rev(s: seq<int>): (r: seq<int>)
    ensures |r| == |s|
  {
    if s == [] then [] else [s[|s| - 1]] + Rev(s[..|s| - 1])
  }

  lemma {:induction false} RevAt(s: seq<int>, k: int)
    requires 0 <= k < |s|
    ensures Rev(s)[k] == s[|s| - 1 - k]
    decreases |s|
  {
    if k > 0 {
      RevAt(s[..|s| - 1], k - 1);
    }
  }

  lemma {:induction false} RevMultiset(s: seq<int>)
    ensures multiset(Rev(s)) == multiset(s)
    decreases |s|
  {
    if s != [] {
      RevMultiset(s[..|s| - 1]);
      assert s == s[..|s| - 1] + [s[|s| - 1]];
    }
  }

  /** Over an undirected lookup a path costs the same in both directions. */
  lemma {:induction false} PathCostRev(W: Weights, s: seq<int>)
    requires Symmetric(W)
    ensures PathCost(W, Rev(s)) == PathCost(W, s)
    decreases |s|
  {
    if |s| >= 2 {
      var init, x := s[..|s| - 1], s[|s| - 1];
      PathCostRev(W, init);
      RevAt(init, 0);
      PathCostConcat(W, [x], Rev(init));
      assert s == init + [x];
      PathCostSnoc(W, init, x);
      WtSymmetric(W, x, init[|init| - 1]);
    }
  }

  /** `s` with the segment s[i..j] (both ends included) reversed; unchanged when the segment is empty. */
  function Reversed(s: seq<int>, i: int, j: int): (r: seq<int>)
    ensures |r| == |s|
  {
    if 0 <= i <= j < |s| then s[..i] + Rev(s[i..j + 1]) + s[j + 1..] else s
  }

  /** Reversing s[i..j] puts old s[i + j - k] at each position k of the segment and leaves every other position alone. */
  lemma ReversedAt(s: seq<int>, i: int, j: int, k: int)
    requires 0 <= k < |s|
    ensures Reversed(s, i, j)[k] == if 0 <= i <= k <= j < |s| then s[i + j - k] else s[k]
  {
    if 0 <= i <= k <= j < |s| {
      RevAt(s[i..j + 1], k - i);
    }
  }

  /** Reversing a segment only reorders the nodes. */
  lemma ReversedPermutes(s: seq<int>, i: int, j: int)
    ensures multiset(Reversed(s, i, j)) == multiset(s)
  {
    if 0 <= i <= j < |s| {
      RevMultiset(s[i..j + 1]);
      assert s == s[..i] + s[i..j + 1] + s[j + 1..];
    }
  }
}
