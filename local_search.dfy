/** First-improvement 2-opt local search over a tour held in an array. */
module LocalSearch {
  import opened Tours

  /** Moves must gain more than this to be applied (guards against endless equal-cost toggling). */
  const Epsilon: real := 1e-9

  /** Cost change of the 2-opt move at positions (i, j): edges p[i]–p[i+1] and
      p[j]–p[j+1] (wrapping to p[0]) give way to p[i]–p[j] and p[i+1]–p[j+1]. */
  function MoveDelta(W: Weights, p: seq<int>, i: int, j: int): real
    requires 0 <= i < j < |p|
  {
    var n := |p|;
    (Wt(W, p[i], p[j]) + Wt(W, p[i + 1], p[(j + 1) % n]))
      - (Wt(W, p[i], p[i + 1]) + Wt(W, p[j], p[(j + 1) % n]))
  }

  /** The pair (i, j) is one the sweep visits, both new edges exist, and the move gains more than Epsilon. */
  ghost predicate Improving(W: Weights, p: seq<int>, i: int, j: int)
  {
    && 0 <= i && i + 2 <= j < |p|
    && !(i == 0 && j == |p| - 1)
    && HasEdge(W, p[i], p[j])
    && HasEdge(W, p[i + 1], p[(j + 1) % |p|])
    && MoveDelta(W, p, i, j) < -Epsilon
  }

  /** A 2-opt local optimum: no pair the sweep visits offers an improving move. */
  ghost predicate Stable(W: Weights, p: seq<int>)
  {
    forall i, j :: !Improving(W, p, i, j)
  }

  lemma ModNext(j: int, n: int)
    requires 0 <= j < n
    ensures (j + 1) % n == if j + 1 < n then j + 1 else 0
  {
  }

  /** The move at (i, j) cuts the tour into A = p[..i+1], S = p[i+1..j+1] and B = p[j+1..]. */
  lemma MoveSplit(p: seq<int>, i: int, j: int)
    requires 0 <= i && i + 2 <= j < |p|
    ensures p == p[..i + 1] + p[i + 1..j + 1] + p[j + 1..]
    ensures Reversed(p, i + 1, j) == p[..i + 1] + Rev(p[i + 1..j + 1]) + p[j + 1..]
  {
  }

  /** Over an undirected lookup, applying the move at (i, j) changes the tour cost by exactly MoveDelta. */
  lemma MoveCost(W: Weights, p: seq<int>, i: int, j: int)
    requires Symmetric(W)
    requires 0 <= i && i + 2 <= j < |p|
    ensures TourCost(W, Reversed(p, i + 1, j)) == TourCost(W, p) + MoveDelta(W, p, i, j)
  {
    var n := |p|;
    ModNext(j, n);
    MoveSplit(p, i, j);
    var A, S, B := p[..i + 1], p[i + 1..j + 1], p[j + 1..];
    ReversedPiece(W, S);
    if j + 1 < n {
      InnerReversalCost(W, A, S, Rev(S), B);
    } else {
      assert B == [];
      WrapReversalCost(W, A, S, Rev(S));
    }
  }

  /** The facts about a reversed piece that the cost argument needs. */
  lemma ReversedPiece(W: Weights, S: seq<int>)
    requires Symmetric(W) && S != []
    ensures Rev(S) != [] && Rev(S)[0] == S[|S| - 1] && Rev(S)[|S| - 1] == S[0]
    ensures PathCost(W, Rev(S)) == PathCost(W, S)
  {
    RevAt(S, 0);
    RevAt(S, |S| - 1);
    PathCostRev(W, S);
  }

  /** Swapping the middle piece S for a piece R with the same path cost changes only the two joints. */
  lemma InnerReversalCost(W: Weights, A: seq<int>, S: seq<int>, R: seq<int>, B: seq<int>)
    requires A != [] && S != [] && R != [] && B != []
    requires PathCost(W, R) == PathCost(W, S)
    ensures TourCost(W, A + R + B) == TourCost(W, A + S + B)
        + (Wt(W, A[|A| - 1], R[0]) + Wt(W, R[|R| - 1], B[0]))
        - (Wt(W, A[|A| - 1], S[0]) + Wt(W, S[|S| - 1], B[0]))
  {
    TourCostOfThree(W, A, S, B);
    TourCostOfThree(W, A, R, B);
  }

  /** The same when S runs to the end of the tour, so that its far joint is the closing edge back to A[0]. */
  lemma WrapReversalCost(W: Weights, A: seq<int>, S: seq<int>, R: seq<int>)
    requires A != [] && S != [] && R != []
    requires PathCost(W, R) == PathCost(W, S)
    ensures TourCost(W, A + R + []) == TourCost(W, A + S + [])
        + (Wt(W, A[|A| - 1], R[0]) + Wt(W, R[|R| - 1], A[0]))
        - (Wt(W, A[|A| - 1], S[0]) + Wt(W, S[|S| - 1], A[0]))
  {
    assert A + S + [] == A + S && A + R + [] == A + R;
    TourCostOfTwo(W, A, S);
    TourCostOfTwo(W, A, R);
  }

  /** The tour cost of A + S split at the two joints. */
  lemma TourCostOfTwo(W: Weights, A: seq<int>, S: seq<int>)
    requires A != [] && S != []
    ensures TourCost(W, A + S)
      == PathCost(W, A) + Wt(W, A[|A| - 1], S[0]) + PathCost(W, S) + Wt(W, S[|S| - 1], A[0])
  {
    PathCostConcat(W, A, S);
    assert (A + S)[|A + S| - 1] == S[|S| - 1];
    assert (A + S)[0] == A[0];
  }

  /** The tour cost of A + S + B split at the three joints. */
  lemma TourCostOfThree(W: Weights, A: seq<int>, S: seq<int>, B: seq<int>)
    requires A != [] && S != [] && B != []
    ensures TourCost(W, A + S + B)
      == PathCost(W, A) + Wt(W, A[|A| - 1], S[0]) + PathCost(W, S)
         + Wt(W, S[|S| - 1], B[0]) + PathCost(W, B) + Wt(W, B[|B| - 1], A[0])
  {
    var AS := A + S;
    TourCostOfTwo(W, AS, B);
    PathCostConcat(W, A, S);
    assert AS[|AS| - 1] == S[|S| - 1] && AS[0] == A[0];
  }

  /** Two walks joined by an edge make a walk, and a walk splits into walks. */
  lemma WalkConcat(W: Weights, x: seq<int>, y: seq<int>)
    requires x != [] && y != []
    ensures IsWalk(W, x + y) <==> IsWalk(W, x) && IsWalk(W, y) && HasEdge(W, x[|x| - 1], y[0])
  {
    var xy := x + y;
    if IsWalk(W, x) && IsWalk(W, y) && HasEdge(W, x[|x| - 1], y[0]) {
      forall k | 0 <= k < |xy| - 1
        ensures HasEdge(W, xy[k], xy[k + 1])
      {
        if k + 1 < |x| {
          assert xy[k] == x[k] && xy[k + 1] == x[k + 1];
        } else if k + 1 == |x| {
          assert xy[k] == x[|x| - 1] && xy[k + 1] == y[0];
        } else {
          assert xy[k] == y[k - |x|] && xy[k + 1] == y[k - |x| + 1];
        }
      }
    }
    if IsWalk(W, xy) {
      forall k | 0 <= k < |x| - 1
        ensures HasEdge(W, x[k], x[k + 1])
      {
        assert xy[k] == x[k] && xy[k + 1] == x[k + 1];
      }
      forall k | 0 <= k < |y| - 1
        ensures HasEdge(W, y[k], y[k + 1])
      {
        assert xy[|x| + k] == y[k] && xy[|x| + k + 1] == y[k + 1];
      }
      assert xy[|x| - 1] == x[|x| - 1] && xy[|x|] == y[0];
    }
  }

  /** Over an undirected lookup a walk read backwards is a walk. */
  lemma WalkRev(W: Weights, s: seq<int>)
    requires Symmetric(W) && IsWalk(W, s)
    ensures IsWalk(W, Rev(s))
  {
    var r := Rev(s);
    forall k | 0 <= k < |r| - 1
      ensures HasEdge(W, r[k], r[k + 1])
    {
      RevAt(s, k);
      RevAt(s, k + 1);
      var m := |s| - 2 - k;
      assert r[k] == s[m + 1] && r[k + 1] == s[m];
      assert HasEdge(W, s[m], s[m + 1]);
    }
  }

  /** Over an undirected lookup, a move whose two new edges exist turns a closed tour into a closed tour. */
  lemma MoveKeepsCycle(W: Weights, p: seq<int>, i: int, j: int)
    requires Symmetric(W)
    requires 0 <= i && i + 2 <= j < |p|
    requires HasEdge(W, p[i], p[j]) && HasEdge(W, p[i + 1], p[(j + 1) % |p|])
    requires IsCycle(W, p)
    ensures IsCycle(W, Reversed(p, i + 1, j))
  {
    var n := |p|;
    ModNext(j, n);
    MoveSplit(p, i, j);
    var A, S, B := p[..i + 1], p[i + 1..j + 1], p[j + 1..];
    if j + 1 < n {
      WalkConcat(W, A + S, B);
      assert (A + S + B)[n - 1] == B[|B| - 1];
    } else {
      assert B == [] && A + S + B == A + S;
      assert (A + S)[n - 1] == S[|S| - 1];
    }
    WalkConcat(W, A, S);
    WalkRev(W, S);
    RevAt(S, 0);
    RevAt(S, |S| - 1);
    JoinCycle(W, A, Rev(S), B);
  }

  /** Walks A, R and B joined end to end, with an edge from the end back to A[0], form a closed tour. */
  lemma JoinCycle(W: Weights, A: seq<int>, R: seq<int>, B: seq<int>)
    requires A != [] && R != []
    requires IsWalk(W, A) && IsWalk(W, R) && IsWalk(W, B)
    requires HasEdge(W, A[|A| - 1], R[0])
    requires B != [] ==> HasEdge(W, R[|R| - 1], B[0]) && HasEdge(W, B[|B| - 1], A[0])
    requires B == [] ==> HasEdge(W, R[|R| - 1], A[0])
    ensures IsCycle(W, A + R + B)
  {
    var AR := A + R;
    WalkConcat(W, A, R);
    assert AR[|AR| - 1] == R[|R| - 1] && AR[0] == A[0];
    if B != [] {
      WalkConcat(W, AR, B);
      assert (AR + B)[|AR + B| - 1] == B[|B| - 1] && (AR + B)[0] == A[0];
    } else {
      assert AR + B == AR;
    }
  }

  /** Reverses path[i..j] in place by swapping from both ends inward. */
  method Reverse(path: array<int>, i: int, j: int)
    requires 0 <= i && j < path.Length
    modifies path
    ensures path[..] == Reversed(old(path[..]), i, j)
  {
    ghost var s := path[..];
    var lo, hi := i, j;
    while lo < hi
      invariant i <= lo && hi <= j && lo - i == j - hi
      invariant lo <= hi + 1 || (lo == i && hi == j)
      invariant forall k :: i <= k < lo ==> path[k] == s[i + j - k]
      invariant forall k :: hi < k <= j ==> path[k] == s[i + j - k]
      invariant forall k :: 0 <= k < path.Length && !(i <= k < lo) && !(hi < k <= j) ==> path[k] == s[k]
    {
      path[lo], path[hi] := path[hi], path[lo];
      lo := lo + 1;
      hi := hi - 1;
    }
    forall k | 0 <= k < path.Length
      ensures path[k] == Reversed(s, i, j)[k]
    {
      ReversedAt(s, i, j, k);
    }
  }

  /** What an applied move does to the tour: it reorders the nodes, lowers the
      cost by more than Epsilon and, over an undirected lookup, keeps the tour
      closed and changes its cost by exactly MoveDelta. */
  lemma AppliedMove(W: Weights, p: seq<int>, i: int, j: int)
    requires Improving(W, p, i, j)
    ensures multiset(Reversed(p, i + 1, j)) == multiset(p)
    ensures MoveDelta(W, p, i, j) < 0.0
    ensures Symmetric(W) ==> TourCost(W, Reversed(p, i + 1, j)) == TourCost(W, p) + MoveDelta(W, p, i, j)
    ensures Symmetric(W) && IsCycle(W, p) ==> IsCycle(W, Reversed(p, i + 1, j))
  {
    ReversedPermutes(p, i + 1, j);
    if Symmetric(W) {
      MoveCost(W, p, i, j);
      if IsCycle(W, p) {
        MoveKeepsCycle(W, p, i, j);
      }
    }
  }

  /** Examines the pair (i, j) of one sweep on the current path: skips (0, size - 1),
      and applies the move when both new edges exist and it gains more than Epsilon. */
  method TryMove(path: array<int>, i: int, j: int, W: Weights) returns (delta: real, applied: bool)
    requires 0 <= i && i + 2 <= j < path.Length
    modifies path
    ensures applied <==> Improving(W, old(path[..]), i, j)
    ensures applied ==> path[..] == Reversed(old(path[..]), i + 1, j)
    ensures applied ==> delta == MoveDelta(W, old(path[..]), i, j)
    ensures !applied ==> path[..] == old(path[..])
  {
    var size := path.Length;
    ghost var before := path[..];
    applied := false;
    delta := 0.0;
    if i == 0 && j == size - 1 {
      return;
    }
    var u1 := path[i];
    var v1 := path[(i + 1) % size];
    var u2 := path[j];
    var v2 := path[(j + 1) % size];
    var w1 := Wt(W, u1, v1);
    var w2 := Wt(W, u2, v2);
    ModNext(i, size);
    if HasEdge(W, u1, u2) && HasEdge(W, v1, v2) {
      delta := (W[u1][u2] + W[v1][v2]) - (w1 + w2);
      assert delta == MoveDelta(W, before, i, j);
      if delta < -Epsilon {
        Reverse(path, i + 1, j);
        applied := true;
      }
    }
  }

  /** What the search keeps true of a path `p` with running cost `c` that started
      out as `start` with cost `cost0`: the same nodes, the exact tour cost and a
      closed tour whenever the lookup is undirected and the start had them. */
  ghost predicate Tracks(W: Weights, start: seq<int>, cost0: real, p: seq<int>, c: real)
  {
    && multiset(p) == multiset(start)
    && (Symmetric(W) && cost0 == TourCost(W, start) ==> c == TourCost(W, p))
    && (Symmetric(W) && IsCycle(W, start) ==> IsCycle(W, p))
  }

  lemma TracksMove(W: Weights, start: seq<int>, cost0: real, p: seq<int>, c: real, i: int, j: int)
    requires Tracks(W, start, cost0, p, c)
    requires Improving(W, p, i, j)
    ensures Tracks(W, start, cost0, Reversed(p, i + 1, j), c + MoveDelta(W, p, i, j))
    ensures MoveDelta(W, p, i, j) < 0.0
  {
    AppliedMove(W, p, i, j);
  }

  /** The inner loop of a sweep: the pairs (i, j) for one i and every j from i + 2 on. */
  method SweepRow(path: array<int>, i: int, cost: real, W: Weights) returns (newCost: real, improved: bool)
    requires 0 <= i
    modifies path
    ensures Tracks(W, old(path[..]), cost, path[..], newCost)
    ensures improved ==> newCost < cost - Epsilon
    ensures !improved ==> newCost == cost
    ensures !improved ==> path[..] == old(path[..]) && forall b :: !Improving(W, path[..], i, b)
  {
    var size := path.Length;
    ghost var start := path[..];
    newCost := cost;
    improved := false;
    var j := i + 2;
    while j < size
      invariant i + 2 <= j && (j <= size || j == i + 2)
      invariant Tracks(W, start, cost, path[..], newCost)
      invariant improved ==> newCost < cost - Epsilon
      invariant !improved ==> newCost == cost
      invariant !improved ==> path[..] == start
      invariant !improved ==> forall b :: b < j ==> !Improving(W, start, i, b)
    {
      ghost var before := path[..];
      var delta, applied := TryMove(path, i, j, W);
      if applied {
        TracksMove(W, start, cost, before, newCost, i, j);
        newCost := newCost + delta;
        improved := true;
      }
      j := j + 1;
    }
  }

  lemma TracksTrans(W: Weights, s0: seq<int>, c0: real, s1: seq<int>, c1: real, s2: seq<int>, c2: real)
    requires Tracks(W, s0, c0, s1, c1) && Tracks(W, s1, c1, s2, c2)
    ensures Tracks(W, s0, c0, s2, c2)
  {
  }

  /** One sweep over all pairs (i, j), j >= i + 2, except (0, size - 1), applying
      every improving move at once on the already-updated path (first improvement).
      `improved` tells whether any move was applied; when none was, the path is
      unchanged and is a 2-opt local optimum. */
  method Sweep(path: array<int>, cost: real, W: Weights) returns (newCost: real, improved: bool)
    modifies path
    ensures Tracks(W, old(path[..]), cost, path[..], newCost)
    ensures improved ==> newCost < cost - Epsilon
    ensures !improved ==> newCost == cost
    ensures !improved ==> path[..] == old(path[..]) && Stable(W, path[..])
  {
    var size := path.Length;
    ghost var start := path[..];
    newCost := cost;
    improved := false;
    var i := 0;
    while i < size
      invariant 0 <= i
      invariant Tracks(W, start, cost, path[..], newCost)
      invariant improved ==> newCost < cost - Epsilon
      invariant !improved ==> newCost == cost
      invariant !improved ==> path[..] == start
      invariant !improved ==> forall a, b :: 0 <= a < i ==> !Improving(W, start, a, b)
    {
      ghost var before, beforeCost := path[..], newCost;
      var rowImproved;
      newCost, rowImproved := SweepRow(path, i, newCost, W);
      TracksTrans(W, start, cost, before, beforeCost, path[..], newCost);
      improved := improved || rowImproved;
      i := i + 1;
    }
    assert !improved ==> forall a, b :: a >= size ==> !Improving(W, start, a, b);
  }

  /** Repeats sweeps until one applies no move. The deadline is polled at the
      top of each sweep: `budget` is the number of sweeps that start before it
      fires. `converged` is false exactly when the search stopped on the deadline. */
  method TwoOpt(path: array<int>, cost: real, W: Weights, budget: nat)
    returns (newCost: real, converged: bool)
    modifies path
    ensures !converged ==> newCost + (budget as real) * Epsilon <= cost
    ensures multiset(path[..]) == multiset(old(path[..]))
    ensures newCost <= cost
    ensures Symmetric(W) && cost == TourCost(W, old(path[..])) ==> newCost == TourCost(W, path[..])
    ensures Symmetric(W) && IsCycle(W, old(path[..])) ==> IsCycle(W, path[..])
    ensures converged ==> Stable(W, path[..])
  {
    newCost := cost;
    converged := false;
    var improved := true;
    var started := 0;
    while improved
      invariant started <= budget
      invariant Tracks(W, old(path[..]), cost, path[..], newCost)
      invariant newCost <= cost
      invariant improved ==> newCost + (started as real) * Epsilon <= cost
      invariant !improved ==> Stable(W, path[..])
      decreases budget - started
    {
      if started == budget {
        return;
      }
      started := started + 1;
      ghost var before, beforeCost := path[..], newCost;
      newCost, improved := Sweep(path, newCost, W);
      TracksTrans(W, old(path[..]), cost, before, beforeCost, path[..], newCost);
    }
    converged := true;
  }
}
