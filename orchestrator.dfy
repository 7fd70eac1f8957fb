/** The solver's top level: repeated construct-then-improve attempts, and the
    shared best-so-far state they report to. */
module Orchestrator {
  import opened Tours
  import opened Construction
  import opened LocalSearch

  datatype Option<T> = None | Some(value: T)

  /** One completed attempt: an improved tour and its reported cost. */
  datatype Attempt = Attempt(path: seq<int>, cost: real)

  /** The best of a run of attempts as the shared state keeps it: the first
      attempt is taken, and a later one replaces it only when strictly cheaper. */
  function BestOf(attempts: seq<Attempt>): (r: Option<Attempt>)
    ensures r.None? <==> attempts == []
    ensures r.Some? ==> r.value in attempts
    ensures r.Some? ==> forall a :: a in attempts ==> r.value.cost <= a.cost
  {
    if attempts == [] then None
    else
      var b := BestOf(attempts[..|attempts| - 1]);
      var a := attempts[|attempts| - 1];
      if b.None? || a.cost < b.value.cost then Some(a) else b
  }

  /** Ties go to the earliest: the result is the first attempt of least cost. */
  lemma {:induction false} BestOfFirstMinimum(attempts: seq<Attempt>, k: nat)
    requires k < |attempts|
    requires forall x :: 0 <= x < |attempts| ==> attempts[k].cost <= attempts[x].cost
    requires forall x :: 0 <= x < k ==> attempts[x].cost > attempts[k].cost
    ensures BestOf(attempts) == Some(attempts[k])
    decreases |attempts|
  {
    var init := attempts[..|attempts| - 1];
    if k < |attempts| - 1 {
      BestOfFirstMinimum(init, k);
    } else {
      var b := BestOf(init);
      if b.Some? {
        var x :| 0 <= x < |init| && init[x] == b.value;
        assert attempts[x] == b.value;
      }
    }
  }

  /** Every successor of a listed node is listed. */
  ghost predicate Closed(nodes: seq<int>, W: Weights)
  {
    forall u, v :: u in nodes && HasEdge(W, u, v) ==> v in nodes
  }

  /** What a completed attempt guarantees: a tour visiting |nodes| distinct
      nodes; over an undirected lookup, a closed tour of the graph whose cost
      is the one reported; over a lookup that stays within a duplicate-free
      `nodes`, a permutation of `nodes`. */
  ghost predicate Sound(nodes: seq<int>, W: Weights, a: Attempt)
  {
    |a.path| == |nodes| && Distinct(a.path) &&
    (Symmetric(W) ==> IsCycle(W, a.path) && a.cost == TourCost(W, a.path)) &&
    (Closed(nodes, W) && Distinct(nodes) ==> multiset(a.path) == multiset(nodes))
  }

  /** A walk that starts inside a closed node list never leaves it. */
  lemma {:induction false} WalkStaysIn(W: Weights, p: seq<int>, nodes: seq<int>)
    requires Closed(nodes, W) && IsWalk(W, p) && p != [] && p[0] in nodes
    ensures forall x :: x in p ==> x in nodes
    decreases |p|
  {
    if |p| > 1 {
      var init := p[..|p| - 1];
      assert IsWalk(W, init) by {
        forall k | 0 <= k < |init| - 1
          ensures HasEdge(W, init[k], init[k + 1])
        {
          assert init[k] == p[k] && init[k + 1] == p[k + 1];
        }
      }
      WalkStaysIn(W, init, nodes);
      assert HasEdge(W, p[|p| - 2], p[|p| - 1]);
      assert p[|p| - 2] in init;
      assert p == init + [p[|p| - 1]];
    }
  }

  /** Dropping position `i` of a duplicate-free list keeps it duplicate free,
      keeps every other value and removes exactly one occurrence. */
  lemma DropAt(q: seq<int>, i: nat)
    requires Distinct(q) && i < |q|
    ensures Distinct(q[..i] + q[i + 1..])
    ensures forall y :: y in q && y != q[i] ==> y in q[..i] + q[i + 1..]
    ensures multiset(q) == multiset(q[..i] + q[i + 1..]) + multiset{q[i]}
  {
    var q' := q[..i] + q[i + 1..];
    forall a, b | 0 <= a < b < |q'|
      ensures q'[a] != q'[b]
    {
      var a' := if a < i then a else a + 1;
      var b' := if b < i then b else b + 1;
      assert q'[a] == q[a'] && q'[b] == q[b'];
    }
    forall y | y in q && y != q[i]
      ensures y in q'
    {
      var b :| 0 <= b < |q| && q[b] == y;
      if b < i {
        assert q'[b] == y;
      } else {
        assert q'[b - 1] == y;
      }
    }
    assert q == q[..i] + [q[i]] + q[i + 1..];
  }

  /** Two duplicate-free lists of one length, the first drawn from the second,
      hold the same nodes. */
  lemma {:induction false} PermutationOfNodes(p: seq<int>, q: seq<int>)
    requires Distinct(p) && Distinct(q) && |p| == |q|
    requires forall x :: x in p ==> x in q
    ensures multiset(p) == multiset(q)
    decreases |p|
  {
    if p != [] {
      var p' := p[..|p| - 1];
      var x := p[|p| - 1];
      assert x in p;
      var i :| 0 <= i < |q| && q[i] == x;
      DropAt(q, i);
      assert forall y :: y in p' ==> y in p && y != x;
      PermutationOfNodes(p', q[..i] + q[i + 1..]);
      assert p == p' + [x];
    }
  }

  /** A duplicate-free list holds each value at most once. */
  lemma {:induction false} DistinctCount(p: seq<int>, x: int)
    requires Distinct(p)
    ensures multiset(p)[x] <= 1
    decreases |p|
  {
    if p != [] {
      var init := p[..|p| - 1];
      DistinctCount(init, x);
      assert p == init + [p[|p| - 1]];
      if p[|p| - 1] == x {
        assert x !in init;
      }
    }
  }

  /** Reordering a duplicate-free list keeps it duplicate free. */
  lemma DistinctPermuted(p: seq<int>, q: seq<int>)
    requires Distinct(p) && multiset(q) == multiset(p)
    ensures Distinct(q)
  {
    forall a, b | 0 <= a < b < |q|
      ensures q[a] != q[b]
    {
      if q[a] == q[b] {
        var x := q[a];
        assert q == q[..a] + [x] + q[a + 1..b] + [x] + q[b + 1..];
        assert multiset(q)[x] >= 2;
        DistinctCount(p, x);
      }
    }
  }

  /** The state the workers share under their lock. */
  class BestState {
    var bestPath: seq<int>
    var bestCost: real
    var found: bool
    var totalCycles: nat
    /** The completed attempts in the order they reported. */
    ghost var history: seq<Attempt>

    ghost predicate Valid()
      reads this
    {
      totalCycles == |history| &&
      (found <==> history != []) &&
      (found ==> BestOf(history) == Some(Attempt(bestPath, bestCost))) &&
      (!found ==> bestPath == [] && bestCost == 0.0)
    }

    constructor ()
      ensures Valid() && history == [] && !found && totalCycles == 0
    {
      bestPath := [];
      bestCost := 0.0;
      found := false;
      totalCycles := 0;
      history := [];
    }

    /** Records one completed attempt: counts it, and keeps a copy of its tour
        when it is the first or strictly cheaper than the best so far. */
    method Update(path: seq<int>, cost: real)
      requires Valid()
      modifies this
      ensures Valid()
      ensures history == old(history) + [Attempt(path, cost)]
      ensures totalCycles == old(totalCycles) + 1
      ensures found
      ensures !old(found) || cost < old(bestCost) ==> bestPath == path && bestCost == cost
      ensures old(found) && cost >= old(bestCost) ==> bestPath == old(bestPath) && bestCost == old(bestCost)
    {
      history := history + [Attempt(path, cost)];
      assert history[..|history| - 1] == old(history);
      totalCycles := totalCycles + 1;
      if !found || cost < bestCost {
        bestCost := cost;
        bestPath := path;
      }
      found := true;
    }

    /** The solver's answer: the best tour and cost, or an empty tour of cost
        0 when no attempt completed, with the number of completed attempts. */
    method Result() returns (tour: seq<int>, cost: real, cycles: nat)
      requires Valid()
      ensures cycles == |history|
      ensures BestOf(history).None? ==> tour == [] && cost == 0.0
      ensures BestOf(history).Some? ==> Attempt(tour, cost) == BestOf(history).value
    {
      if !found {
        return [], 0.0, totalCycles;
      }
      return bestPath, bestCost, totalCycles;
    }
  }

  /** The random source of the top level: `draw(attempt, step, n)` is below `n`;
      step 0 picks the start node, later steps the construction's choices. */
  ghost predicate ValidDraw(draw: (nat, nat, nat) -> nat)
  {
    forall attempt: nat, step: nat, n: nat :: 0 < n ==> draw(attempt, step, n) < n
  }

  /** A walk the construction made from a start in `nodes`: duplicate free,
      along edges, each step to one of the K nearest unvisited neighbours, at
      most |nodes| long, and cut short only at a node with no unvisited
      neighbour. */
  ghost predicate Constructed(nodes: seq<int>, W: Weights, walk: seq<int>)
  {
    walk != [] && walk[0] in nodes && Distinct(walk) && IsWalk(W, walk) && NearWalk(W, walk) &&
    |walk| <= |nodes| &&
    (|walk| < |nodes| ==> forall v :: HasEdge(W, walk[|walk| - 1], v) ==> v in walk)
  }

  /** The construction reached all `n` nodes and could close the tour. */
  ghost predicate Complete(W: Weights, n: nat, walk: seq<int>)
  {
    walk != [] && |walk| == n && HasEdge(W, walk[|walk| - 1], walk[0])
  }

  /** The complete walks among `walks`, in order. */
  ghost function CompleteWalks(W: Weights, n: nat, walks: seq<seq<int>>): (r: seq<seq<int>>)
    ensures |r| <= |walks|
    ensures forall w :: w in r ==> w in walks && Complete(W, n, w)
  {
    if walks == [] then []
    else
      var last := walks[|walks| - 1];
      CompleteWalks(W, n, walks[..|walks| - 1]) + (if Complete(W, n, last) then [last] else [])
  }

  /** `reports` account for `walks`: every walk is a construction, and the
      reports are, in order, one reordering of each complete walk. */
  ghost predicate Reported(nodes: seq<int>, W: Weights, walks: seq<seq<int>>, reports: seq<Attempt>)
  {
    (forall k :: 0 <= k < |walks| ==> Constructed(nodes, W, walks[k])) &&
    |reports| == |CompleteWalks(W, |nodes|, walks)| &&
    forall j :: 0 <= j < |reports| ==>
      multiset(reports[j].path) == multiset(CompleteWalks(W, |nodes|, walks)[j])
  }

  /** Round k's construction started from the node drawn at step 0 of attempt k. */
  ghost predicate StartsDrawn(nodes: seq<int>, draw: (nat, nat, nat) -> nat, walks: seq<seq<int>>)
  {
    forall k :: 0 <= k < |walks| ==>
      walks[k] != [] && draw(k, 0, |nodes|) < |nodes| && walks[k][0] == nodes[draw(k, 0, |nodes|)]
  }

  lemma StartsDrawnSnoc(nodes: seq<int>, draw: (nat, nat, nat) -> nat, walks: seq<seq<int>>, walk: seq<int>)
    requires StartsDrawn(nodes, draw, walks)
    requires walk != [] && draw(|walks|, 0, |nodes|) < |nodes| && walk[0] == nodes[draw(|walks|, 0, |nodes|)]
    ensures StartsDrawn(nodes, draw, walks + [walk])
  {
    var w := walks + [walk];
    forall k | 0 <= k < |w|
      ensures w[k] != [] && draw(k, 0, |nodes|) < |nodes| && w[k][0] == nodes[draw(k, 0, |nodes|)]
    {
      if k < |walks| {
        assert w[k] == walks[k];
      }
    }
  }

  /** What 2-opt guarantees about an attempt built from `walk` with at most
      `budget` sweeps: it costs no more than the walk's tour, and either it is
      a 2-opt local optimum or every sweep improved it by more than 1e-9. */
  ghost predicate Refined(W: Weights, a: Attempt, walk: seq<int>, budget: nat)
  {
    a.cost <= TourCost(W, walk) &&
    (Stable(W, a.path) || a.cost + (budget as real) * Epsilon <= TourCost(W, walk))
  }

  lemma ReportedSkip(nodes: seq<int>, W: Weights, walks: seq<seq<int>>, reports: seq<Attempt>, walk: seq<int>)
    requires Reported(nodes, W, walks, reports)
    requires Constructed(nodes, W, walk) && !Complete(W, |nodes|, walk)
    ensures Reported(nodes, W, walks + [walk], reports)
  {
    assert (walks + [walk])[..|walks|] == walks;
  }

  lemma ReportedAdd(nodes: seq<int>, W: Weights, walks: seq<seq<int>>, reports: seq<Attempt>, walk: seq<int>, a: Attempt)
    requires Reported(nodes, W, walks, reports)
    requires Constructed(nodes, W, walk) && Complete(W, |nodes|, walk)
    requires multiset(a.path) == multiset(walk)
    ensures Reported(nodes, W, walks + [walk], reports + [a])
  {
    assert (walks + [walk])[..|walks|] == walks;
    assert CompleteWalks(W, |nodes|, walks + [walk]) == CompleteWalks(W, |nodes|, walks) + [walk];
  }

  /** Everything the rounds so far account for, round by round: walk k is a
      construction from the node drawn for round k; when it is complete the
      next report reorders it and is `Refined` from it within `sweeps(k)`
      sweeps, and when it is not, no report belongs to it. */
  ghost predicate Accounted(nodes: seq<int>, W: Weights, draw: (nat, nat, nat) -> nat, sweeps: nat -> nat,
                            walks: seq<seq<int>>, reports: seq<Attempt>)
    decreases |walks|
  {
    if walks == [] then reports == []
    else
      var k := |walks| - 1;
      var w := walks[k];
      Constructed(nodes, W, w) && draw(k, 0, |nodes|) < |nodes| && w[0] == nodes[draw(k, 0, |nodes|)] &&
      (if Complete(W, |nodes|, w) then
         reports != [] &&
         multiset(reports[|reports| - 1].path) == multiset(w) &&
         Refined(W, reports[|reports| - 1], w, sweeps(k)) &&
         Accounted(nodes, W, draw, sweeps, walks[..k], reports[..|reports| - 1])
       else
         Accounted(nodes, W, draw, sweeps, walks[..k], reports))
  }

  /** One more round keeps the account: a complete walk adds its report, an
      incomplete one adds none. */
  lemma AccountedStep(nodes: seq<int>, W: Weights, draw: (nat, nat, nat) -> nat, sweeps: nat -> nat,
                      walks: seq<seq<int>>, reports: seq<Attempt>, walk: seq<int>, reported: bool, a: Attempt)
    requires Accounted(nodes, W, draw, sweeps, walks, reports)
    requires Constructed(nodes, W, walk)
    requires draw(|walks|, 0, |nodes|) < |nodes| && walk[0] == nodes[draw(|walks|, 0, |nodes|)]
    requires reported <==> Complete(W, |nodes|, walk)
    requires reported ==> multiset(a.path) == multiset(walk) && Refined(W, a, walk, sweeps(|walks|))
    ensures Accounted(nodes, W, draw, sweeps, walks + [walk], if reported then reports + [a] else reports)
  {
    assert (walks + [walk])[..|walks|] == walks;
    assert (reports + [a])[..|reports|] == reports;
  }

  /** The account gives, for all rounds at once, the per-walk facts of
      `Reported`: every walk is a construction, and the reports reorder the
      complete walks one for one, in order. */
  lemma {:induction false} AccountedReported(nodes: seq<int>, W: Weights, draw: (nat, nat, nat) -> nat,
                                             sweeps: nat -> nat, walks: seq<seq<int>>, reports: seq<Attempt>)
    requires Accounted(nodes, W, draw, sweeps, walks, reports)
    ensures Reported(nodes, W, walks, reports)
    decreases |walks|
  {
    if walks != [] {
      var k := |walks| - 1;
      var w := walks[k];
      assert walks == walks[..k] + [w];
      if Complete(W, |nodes|, w) {
        var r := reports[..|reports| - 1];
        AccountedReported(nodes, W, draw, sweeps, walks[..k], r);
        ReportedAdd(nodes, W, walks[..k], r, w, reports[|reports| - 1]);
        assert reports == r + [reports[|reports| - 1]];
      } else {
        AccountedReported(nodes, W, draw, sweeps, walks[..k], reports);
        ReportedSkip(nodes, W, walks[..k], reports, w);
      }
    }
  }

  /** The account gives, for all rounds at once, that walk k starts at the
      node drawn for round k. */
  lemma {:induction false} AccountedStarts(nodes: seq<int>, W: Weights, draw: (nat, nat, nat) -> nat,
                                           sweeps: nat -> nat, walks: seq<seq<int>>, reports: seq<Attempt>)
    requires Accounted(nodes, W, draw, sweeps, walks, reports)
    ensures StartsDrawn(nodes, draw, walks)
    decreases |walks|
  {
    if walks != [] {
      var k := |walks| - 1;
      var w := walks[k];
      assert walks == walks[..k] + [w];
      if Complete(W, |nodes|, w) {
        AccountedStarts(nodes, W, draw, sweeps, walks[..k], reports[..|reports| - 1]);
      } else {
        AccountedStarts(nodes, W, draw, sweeps, walks[..k], reports);
      }
      StartsDrawnSnoc(nodes, draw, walks[..k], w);
    }
  }

  /** Runs 2-opt on a copy of a constructed tour, as a worker hands its
      slice to the local search. */
  method ImproveTour(path: seq<int>, cost: real, W: Weights, budget: nat) returns (improved: seq<int>, newCost: real)
    ensures |improved| == |path| && multiset(improved) == multiset(path)
    ensures cost == TourCost(W, path) ==> Refined(W, Attempt(improved, newCost), path, budget)
    ensures Symmetric(W) && cost == TourCost(W, path) ==> newCost == TourCost(W, improved)
    ensures Symmetric(W) && IsCycle(W, path) ==> IsCycle(W, improved)
  {
    var a := new int[|path|](k => if 0 <= k < |path| then path[k] else 0);
    assert a[..] == path;
    var converged;
    newCost, converged := TwoOpt(a, cost, W, budget);
    improved := a[..];
  }

  /** One iteration of a worker's loop: pick a random start, construct a tour,
      and when construction succeeds improve the tour with at most `budget`
      sweeps and report it. `walk` is the construction's walk; an attempt is
      reported exactly when it is complete, and it reorders that walk. */
  method RunRound(best: BestState, nodes: seq<int>, W: Weights, round: nat,
                  draw: (nat, nat, nat) -> nat, budget: nat)
    returns (ghost walk: seq<int>, ghost reported: bool, ghost report: Attempt)
    requires best.Valid() && ValidDraw(draw) && |nodes| > 0
    requires forall a :: a in best.history ==> Sound(nodes, W, a)
    modifies best
    ensures best.Valid()
    ensures forall a :: a in best.history ==> Sound(nodes, W, a)
    ensures Constructed(nodes, W, walk)
    ensures walk[0] == nodes[draw(round, 0, |nodes|)]
    ensures reported <==> Complete(W, |nodes|, walk)
    ensures !reported ==> best.history == old(best.history)
    ensures reported ==> best.history == old(best.history) + [report]
    ensures reported ==> multiset(report.path) == multiset(walk)
    ensures reported ==> Refined(W, report, walk, budget)
  {
    var startNode := nodes[draw(round, 0, |nodes|)];
    var intn := (step: nat, n: nat) => draw(round, step + 1, n);
    assert ValidRng(intn);
    var path, cost, ok;
    path, cost, ok, walk := RandomizedNearestNeighbor(startNode, |nodes|, W, intn);
    reported := ok;
    report := Attempt([], 0.0);
    if ok {
      var improved, newCost := ImproveTour(path, cost, W, budget);
      DistinctPermuted(path, improved);
      if Closed(nodes, W) && Distinct(nodes) {
        WalkStaysIn(W, path, nodes);
        PermutationOfNodes(path, nodes);
        assert multiset(improved) == multiset(nodes);
      }
      assert Sound(nodes, W, Attempt(improved, newCost));
      best.Update(improved, newCost);
      report := Attempt(improved, newCost);
    }
  }

  /** One round of a worker's loop together with its account: round
      `round`, which follows the rounds of `walks`, adds its walk, and its
      report when it made one. */
  method AccountRound(best: BestState, nodes: seq<int>, W: Weights, round: nat,
                      draw: (nat, nat, nat) -> nat, sweeps: nat -> nat,
                      ghost walks: seq<seq<int>>, ghost reports: seq<Attempt>)
    returns (ghost walk: seq<int>, ghost added: seq<Attempt>)
    requires best.Valid() && ValidDraw(draw) && |nodes| > 0
    requires forall a :: a in best.history ==> Sound(nodes, W, a)
    requires Accounted(nodes, W, draw, sweeps, walks, reports) && round == |walks|
    modifies best
    ensures best.Valid()
    ensures forall a :: a in best.history ==> Sound(nodes, W, a)
    ensures |added| <= 1
    ensures best.history == old(best.history) + added
    ensures Accounted(nodes, W, draw, sweeps, walks + [walk], reports + added)
  {
    ghost var reported, report;
    walk, reported, report := RunRound(best, nodes, W, round, draw, sweeps(round));
    AccountedStep(nodes, W, draw, sweeps, walks, reports, walk, reported, report);
    added := if reported then [report] else [];
    assert reports + added == if reported then reports + [report] else reports;
  }

  /** One worker's loop, cut off after `rounds` iterations where the deadline
      would stop it. `walks[k]` is the walk the construction made in round k;
      `reports` are the attempts reported, one per complete walk, each a
      reordering of that walk. */
  method Worker(best: BestState, nodes: seq<int>, W: Weights, rounds: nat,
                draw: (nat, nat, nat) -> nat, sweeps: nat -> nat)
    returns (ghost walks: seq<seq<int>>, ghost reports: seq<Attempt>)
    requires best.Valid() && ValidDraw(draw) && |nodes| > 0
    requires forall a :: a in best.history ==> Sound(nodes, W, a)
    modifies best
    ensures best.Valid()
    ensures forall a :: a in best.history ==> Sound(nodes, W, a)
    ensures best.history == old(best.history) + reports
    ensures |walks| == rounds
    ensures Accounted(nodes, W, draw, sweeps, walks, reports)
  {
    walks, reports := [], [];
    var round := 0;
    while round < rounds
      invariant round <= rounds
      invariant best.Valid()
      invariant forall a :: a in best.history ==> Sound(nodes, W, a)
      invariant best.history == old(best.history) + reports
      invariant |walks| == round
      invariant Accounted(nodes, W, draw, sweeps, walks, reports)
    {
      ghost var walk, added := AccountRound(best, nodes, W, round, draw, sweeps, walks, reports);
      assert best.history == old(best.history) + (reports + added);
      walks, reports := walks + [walk], reports + added;
      round := round + 1;
    }
  }

  /** Solves over the listed nodes: no nodes gives an empty tour, one node the
      list itself, otherwise the best of the completed attempts. `walks` are
      the constructions of the rounds, and `attempts` the reported attempts,
      one per complete construction. */
  method SolveTSP(nodes: seq<int>, W: Weights, rounds: nat,
                  draw: (nat, nat, nat) -> nat, sweeps: nat -> nat)
    returns (tour: seq<int>, cost: real, cycles: nat, ghost attempts: seq<Attempt>, ghost walks: seq<seq<int>>)
    requires ValidDraw(draw)
    ensures |nodes| == 0 ==> tour == [] && cost == 0.0 && cycles == 0
    ensures |nodes| == 1 ==> tour == nodes && cost == 0.0 && cycles == 1
    ensures |nodes| >= 2 ==> cycles == |attempts| <= rounds
    ensures |nodes| >= 2 ==> |walks| == rounds && Accounted(nodes, W, draw, sweeps, walks, attempts)
    ensures |nodes| >= 2 ==> Reported(nodes, W, walks, attempts) && StartsDrawn(nodes, draw, walks)
    ensures |nodes| >= 2 ==> forall a :: a in attempts ==> Sound(nodes, W, a)
    ensures |nodes| >= 2 && attempts == [] ==> tour == [] && cost == 0.0
    ensures |nodes| >= 2 && attempts != [] ==> BestOf(attempts) == Some(Attempt(tour, cost))
  {
    attempts, walks := [], [];
    if |nodes| == 0 {
      return [], 0.0, 0, attempts, walks;
    }
    if |nodes| == 1 {
      return nodes, 0.0, 1, attempts, walks;
    }
    var best := new BestState();
    ghost var reports;
    walks, reports := Worker(best, nodes, W, rounds, draw, sweeps);
    tour, cost, cycles := best.Result();
    attempts := best.history;
    assert attempts == reports;
    AccountedReported(nodes, W, draw, sweeps, walks, attempts);
    AccountedStarts(nodes, W, draw, sweeps, walks, attempts);
  }

  /** The answer over a connected-enough undirected graph: when any attempt
      completed, the returned tour is a closed tour of all the nodes whose
      reported cost is its true cost, and no completed attempt did better. */
  lemma SolvedTour(nodes: seq<int>, W: Weights, tour: seq<int>, cost: real, attempts: seq<Attempt>)
    requires |nodes| >= 2 && attempts != []
    requires forall a :: a in attempts ==> Sound(nodes, W, a)
    requires BestOf(attempts) == Some(Attempt(tour, cost))
    requires Symmetric(W) && Closed(nodes, W) && Distinct(nodes)
    ensures IsCycle(W, tour) && cost == TourCost(W, tour)
    ensures multiset(tour) == multiset(nodes)
    ensures forall a :: a in attempts ==> TourCost(W, tour) <= TourCost(W, a.path)
  {
  }
}
