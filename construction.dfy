/** Randomized nearest-neighbour tour construction: from the current node, keep
    the K lightest unvisited neighbours and move to one of them at random. */
module Construction {
  import opened Tours

  /** A neighbour of the current node and the weight of the edge to it. */
  datatype Candidate = Candidate(node: int, dist: real)

  /** How many of the lightest unvisited neighbours are kept. */
  const K: nat := 3

  /** The random source: `intn(step, n)` is the value drawn, below `n`, at a given step. */
  ghost predicate ValidRng(intn: (nat, nat) -> nat)
  {
    forall step: nat, n: nat :: 0 < n ==> intn(step, n) < n
  }

  /** No node occurs in two candidates. */
  predicate NodesDistinct(q: seq<Candidate>)
  {
    forall a, b :: 0 <= a < b < |q| ==> q[a].node != q[b].node
  }

  /** The neighbours of `u` as (node, weight) pairs, in an arbitrary order as Go's
      range over a map gives them; a node absent from the lookup has none. */
  method Scan(W: Weights, u: int) returns (scan: seq<Candidate>)
    ensures forall c :: c in scan ==> HasEdge(W, u, c.node) && c.dist == W[u][c.node]
    ensures forall v :: HasEdge(W, u, v) ==> Candidate(v, W[u][v]) in scan
    ensures NodesDistinct(scan)
  {
    scan := [];
    if u in W {
      var row := W[u];
      var rest := row.Keys;
      while exists v :: v in rest
        invariant rest <= row.Keys
        invariant forall c :: c in scan ==> c.node in row && c.dist == row[c.node] && c.node !in rest
        invariant forall v :: v in row && v !in rest ==> Candidate(v, row[v]) in scan
        invariant forall a, b :: 0 <= a < b < |scan| ==> scan[a].node != scan[b].node
        decreases rest
      {
        var v :| v in rest;
        scan := scan + [Candidate(v, row[v])];
        rest := rest - {v};
      }
    }
  }

  /** The scanned candidates that are not yet visited, in scan order. */
  function Eligible(scan: seq<Candidate>, visited: set<int>): (r: seq<Candidate>)
    ensures |r| <= |scan|
    ensures forall c :: c in r <==> c in scan && c.node !in visited
  {
    if scan == [] then []
    else
      var last := scan[|scan| - 1];
      Eligible(scan[..|scan| - 1], visited) + (if last.node in visited then [] else [last])
  }

  /** Index of the heaviest kept candidate; the first one on ties. */
  method WorstIndex(topK: seq<Candidate>) returns (m: nat)
    requires topK != []
    ensures m < |topK|
    ensures forall x :: 0 <= x < |topK| ==> topK[x].dist <= topK[m].dist
    ensures forall x :: 0 <= x < m ==> topK[x].dist < topK[m].dist
  {
    m := 0;
    var i := 1;
    while i < |topK|
      invariant 1 <= i <= |topK| && m < i
      invariant forall x :: 0 <= x < i ==> topK[x].dist <= topK[m].dist
      invariant forall x :: 0 <= x < m ==> topK[x].dist < topK[m].dist
    {
      if topK[i].dist > topK[m].dist {
        m := i;
      }
      i := i + 1;
    }
  }

  /** `topK` is a best-of-K selection from the eligible candidates `E`: it
      holds min(|E|, K) of them, all of them while fewer than K were seen, and
      none heavier than a candidate it left out. */
  ghost predicate KeepsLightest(topK: seq<Candidate>, E: seq<Candidate>)
  {
    NodesDistinct(topK) &&
    |topK| == (if |E| < K then |E| else K) &&
    (forall r :: r in topK ==> r in E) &&
    (|topK| < K ==> forall c :: c in E ==> c in topK) &&
    (forall c :: c in E && c !in topK ==> forall r :: r in topK ==> r.dist <= c.dist)
  }

  /** Offers one unvisited candidate to the selection: appended while fewer
      than K are kept, otherwise it replaces the heaviest kept one when it is
      strictly lighter. */
  method Offer(topK: seq<Candidate>, c: Candidate, ghost E: seq<Candidate>) returns (t: seq<Candidate>)
    requires KeepsLightest(topK, E)
    requires forall e :: e in E ==> e.node != c.node
    ensures KeepsLightest(t, E + [c])
    ensures |topK| < K ==> t == topK + [c]
  {
    if |topK| < K {
      t := topK + [c];
      assert forall x :: x in E + [c] ==> x in t;
    } else {
      var m := WorstIndex(topK);
      if c.dist < topK[m].dist {
        ReplaceWorst(topK, m, c);
        t := topK[m := c];
        assert t[m] == c;
        assert NodesDistinct(t) by {
          forall a, b | 0 <= a < b < |t|
            ensures t[a].node != t[b].node
          {
            assert topK[a] in E && topK[b] in E;
          }
        }
        forall x | x in E + [c] && x !in t
          ensures forall r :: r in t ==> r.dist <= x.dist
        {
          if x in topK {
            assert x == topK[m];
          } else {
            assert x in E;
            assert c.dist < topK[m].dist <= x.dist;
          }
        }
      } else {
        t := topK;
        assert forall r :: r in t ==> r.dist <= c.dist;
      }
    }
  }

  /** Replacing the heaviest kept candidate by a lighter one: what leaves the
      selection weighs at least as much as everything that stays. */
  lemma ReplaceWorst(topK: seq<Candidate>, m: nat, c: Candidate)
    requires m < |topK|
    requires forall x :: 0 <= x < |topK| ==> topK[x].dist <= topK[m].dist
    requires c.dist < topK[m].dist
    ensures forall r :: r in topK[m := c] ==> r == c || r in topK
    ensures forall r :: r in topK && r !in topK[m := c] ==>
              r == topK[m] && forall q :: q in topK[m := c] ==> q.dist <= r.dist
  {
    var t := topK[m := c];
    forall x | 0 <= x < |topK| && x != m
      ensures topK[x] in t
    {
      assert t[x] == topK[x];
    }
  }

  /** Bounded best-of-K selection over the scan, offering the unvisited
      candidates in scan order. */
  method TopK(scan: seq<Candidate>, visited: set<int>) returns (topK: seq<Candidate>)
    requires NodesDistinct(scan)
    ensures NodesDistinct(topK)
    ensures |topK| == if |Eligible(scan, visited)| < K then |Eligible(scan, visited)| else K
    ensures forall r :: r in topK ==> r in scan && r.node !in visited
    ensures forall c :: c in scan && c.node !in visited && c !in topK ==>
              forall r :: r in topK ==> r.dist <= c.dist
    ensures topK == [] <==> forall c :: c in scan ==> c.node in visited
  {
    topK := [];
    var idx := 0;
    while idx < |scan|
      invariant 0 <= idx <= |scan|
      invariant KeepsLightest(topK, Eligible(scan[..idx], visited))
    {
      var c := scan[idx];
      assert scan[..idx + 1][..idx] == scan[..idx];
      if c.node !in visited {
        forall e | e in Eligible(scan[..idx], visited)
          ensures e.node != c.node
        {
          var a :| 0 <= a < idx && scan[..idx][a] == e;
        }
        topK := Offer(topK, c, Eligible(scan[..idx], visited));
      }
      idx := idx + 1;
    }
    assert scan[..idx] == scan;
    var E := Eligible(scan, visited);
    assert E != [] ==> E[0] in E;
  }

  /** The nodes adjacent to `u` in the lookup. */
  function Neighbours(W: Weights, u: int): set<int>
  {
    if u in W then W[u].Keys else {}
  }

  /** The neighbours of `u` not in `seen` that are strictly closer to `u` than `v` is. */
  ghost function Closer(W: Weights, u: int, seen: seq<int>, v: int): set<int>
  {
    set x | x in Neighbours(W, u) && x !in seen && Wt(W, u, x) < Wt(W, u, v)
  }

  /** A step of the construction from `u`, having visited `seen`, to `v`:
      an unvisited neighbour with fewer than K unvisited neighbours closer to
      `u`, so one of the K nearest (ties broken in any way). */
  ghost predicate NearChoice(W: Weights, u: int, seen: seq<int>, v: int)
  {
    HasEdge(W, u, v) && v !in seen && |Closer(W, u, seen, v)| < K
  }

  /** Every step of the walk `p` went to one of the K nearest unvisited neighbours. */
  ghost predicate NearWalk(W: Weights, p: seq<int>)
  {
    forall s :: 1 <= s < |p| ==> NearChoice(W, p[s - 1], p[..s], p[s])
  }

  lemma NearWalkSnoc(W: Weights, p: seq<int>, v: int)
    requires p != [] && NearWalk(W, p) && NearChoice(W, p[|p| - 1], p, v)
    ensures NearWalk(W, p + [v])
  {
    var q := p + [v];
    forall s | 1 <= s < |q|
      ensures NearChoice(W, q[s - 1], q[..s], q[s])
    {
      if s < |p| {
        assert q[..s] == p[..s];
      } else {
        assert q[..s] == p;
      }
    }
  }

  function NodesOf(q: seq<Candidate>): set<int>
  {
    set r | r in q :: r.node
  }

  lemma {:induction false} NodesOfSize(q: seq<Candidate>)
    ensures |NodesOf(q)| <= |q|
    decreases |q|
  {
    if q != [] {
      var init := q[..|q| - 1];
      NodesOfSize(init);
      assert q == init + [q[|q| - 1]];
      assert NodesOf(q) == NodesOf(init) + {q[|q| - 1].node};
    }
  }

  lemma {:induction false} SubsetSize(A: set<int>, B: set<int>)
    requires A <= B
    ensures |A| <= |B|
    decreases |A|
  {
    if exists x :: x in A {
      var x :| x in A;
      SubsetSize(A - {x}, B - {x});
    }
  }

  /** Any candidate the top-K selection keeps is a step to one of the K
      nearest unvisited neighbours. */
  lemma KeptIsNear(W: Weights, u: int, seen: seq<int>, visited: set<int>,
                   scan: seq<Candidate>, topK: seq<Candidate>, c: Candidate)
    requires forall x :: x in visited <==> x in seen
    requires forall c :: c in scan ==> HasEdge(W, u, c.node) && c.dist == W[u][c.node]
    requires forall v :: HasEdge(W, u, v) ==> Candidate(v, W[u][v]) in scan
    requires |topK| <= K
    requires forall r :: r in topK ==> r in scan && r.node !in visited
    requires forall c :: c in scan && c.node !in visited && c !in topK ==>
               forall r :: r in topK ==> r.dist <= c.dist
    requires c in topK
    ensures NearChoice(W, u, seen, c.node)
  {
    var closer := Closer(W, u, seen, c.node);
    forall x | x in closer
      ensures x in NodesOf(topK) - {c.node}
    {
      var d := Candidate(x, W[u][x]);
      assert d in scan && d.node !in visited && d.dist < c.dist;
      assert d in topK;
    }
    SubsetSize(closer, NodesOf(topK) - {c.node});
    NodesOfSize(topK);
  }

  /** One step of the construction from `current`: scans its neighbours, keeps
      the K lightest unvisited ones and draws one of them. `found` is false on a
      dead end, when every neighbour is already visited. */
  method NextStep(W: Weights, current: int, visited: set<int>, ghost seen: seq<int>,
                  intn: (nat, nat) -> nat, step: nat)
    returns (found: bool, next: Candidate)
    requires forall x :: x in visited <==> x in seen
    requires ValidRng(intn)
    ensures found ==> NearChoice(W, current, seen, next.node) && next.dist == W[current][next.node]
    ensures !found <==> forall v :: HasEdge(W, current, v) ==> v in visited
  {
    var scan := Scan(W, current);
    var topK := TopK(scan, visited);
    if |topK| == 0 {
      return false, Candidate(current, 0.0);
    }
    next := topK[intn(step, |topK|)];
    KeptIsNear(W, current, seen, visited, scan, topK, next);
    found := true;
  }

  /** Builds a tour from `startNode` over `numNodes` nodes. On success `path`
      holds the nodes in visiting order and `cost` its closed-tour cost; on
      failure both are empty. `walk` is the walk the construction had made
      when it stopped. */
  method RandomizedNearestNeighbor(startNode: int, numNodes: nat, W: Weights, intn: (nat, nat) -> nat)
    returns (path: seq<int>, cost: real, ok: bool, ghost walk: seq<int>)
    requires ValidRng(intn)
    ensures walk != [] && walk[0] == startNode && Distinct(walk) && IsWalk(W, walk)
    ensures |walk| <= if numNodes == 0 then 1 else numNodes
    ensures ok ==> path == walk && IsCycle(W, path) && cost == TourCost(W, path)
    ensures ok ==> |path| == if numNodes == 0 then 1 else numNodes
    ensures !ok ==> path == [] && cost == 0.0
    ensures ok <==> |walk| == (if numNodes == 0 then 1 else numNodes) && HasEdge(W, walk[|walk| - 1], walk[0])
    ensures !ok && |walk| < numNodes ==> forall v :: HasEdge(W, walk[|walk| - 1], v) ==> v in walk
    ensures NearWalk(W, walk)
  {
    path := [startNode];
    var visited := {startNode};
    var current := startNode;
    cost := 0.0;
    while |path| < numNodes
      invariant path != [] && path[0] == startNode && current == path[|path| - 1]
      invariant |path| <= if numNodes == 0 then 1 else numNodes
      invariant forall x :: x in visited <==> x in path
      invariant Distinct(path)
      invariant IsWalk(W, path)
      invariant cost == PathCost(W, path)
      invariant NearWalk(W, path)
      decreases numNodes - |path|
    {
      var found, choice := NextStep(W, current, visited, path, intn, |path| - 1);
      if !found {
        walk := path;
        path, cost, ok := [], 0.0, false;
        return;
      }
      PathCostSnoc(W, path, choice.node);
      NearWalkSnoc(W, path, choice.node);
      current := choice.node;
      path := path + [current];
      visited := visited + {current};
      cost := cost + choice.dist;
    }
    walk := path;
    var first := path[0];
    var last := path[|path| - 1];
    if HasEdge(W, last, first) {
      cost := cost + W[last][first];
      ok := true;
    } else {
      path, cost, ok := [], 0.0, false;
    }
  }
}
