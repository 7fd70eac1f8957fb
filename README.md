# Verified model of the EEC289Q travelling-salesperson solver core

The repository solves the Travelling Salesperson Problem on an undirected,
weighted graph by repeated attempts. Each attempt:

1. builds a tour with a *randomized nearest-neighbour* heuristic. From the
   current node it keeps the three lightest unvisited neighbours and steps to
   one of them at random.
2. improves the tour with *2-opt* local search (first improvement). A move
   is applied only when it gains more than `1e-9`.
3. reports the tour and its cost to a shared best-so-far state.

This Dafny project models the graph container (`pkg/graph.go`) and the
solver (`pkg/solve.go`). It proves what each operation computes and what it
preserves.

Modules:

- `Graphs` (graph.dfy) models the `Graph` object.
  - A class whose `nodes` set and `edges` map are updated in place by `AddEdge`.
  - An edge is stored once, under the larger of its endpoints.
  - `EdgeCount` sums the list lengths in an arbitrary key order.
- `Tours` (tours.dfy) holds the specification vocabulary the solver is
  proved against:
  - the weight lookup `Weights`, where a missing key reads as `0.0`;
  - walks, closed tours (`IsCycle`) and their costs (`PathCost`, `TourCost`);
  - segment reversal (`Reversed`).
- `LocalSearch` (local_search.dfy) models `reverse` and `twoOpt`.
  - Both work in place on an `array`.
  - Each 2-opt loop level is its own method: `TwoOpt` (sweeps), `Sweep`
    (over i), `SweepRow` (over j) and `TryMove` (one pair).
- `Construction` (construction.dfy) models `randomizedNearestNeighbor`:
  - the scan of a node's neighbours in map order;
  - the bounded top-3 selection;
  - the random choice;
  - the closing edge.
- `Orchestrator` (orchestrator.dfy) models the sequential parts of `SolveTSP`:
  - the size-0 and size-1 answers;
  - a worker's attempt loop;
  - the lock-protected best-state update as the class `BestState`;
  - the final answer.

### How the model reads the source

**Graph interface.** `pkg/solve.go` reads `graph.nodes` as an indexable
slice and `graph.edges[u][v]` as a two-level map. `pkg/graph.go` declares
neither: it has `Nodes` (a set) and `Edges` (per-node lists stored one way
only). The model therefore keeps two separate views:

- `Graphs.Graph` models `pkg/graph.go` as written.
- The solver methods take the node list `nodes: seq<int>` and a two-level
  lookup `W: map<int, map<int, real>>` as parameters.

Where a property needs the lookup to be undirected, `Symmetric(W)` is a
premise of that property, not a requirement on the caller. This matches
the source, which runs on any lookup.

**Edge count and reproducibility.**

- `EdgeCount` counts each recorded edge once, because `AddEdge` stores it
  only under its larger endpoint. It therefore equals the number of
  `AddEdge` calls made.
- Runs are not reproducible from a seed. The neighbour scan ranges over a
  Go map (`pkg/solve.go:109`), and the map's order varies from run to run.
  The model leaves the scan order unconstrained, and every property proved
  holds for every order.

**Deadline and randomness.**

- The deadline is modelled in two places:
  - `TwoOpt` takes `budget`, the number of sweeps that begin before the
    deadline fires;
  - `Worker` takes `rounds`, the number of loop iterations that begin before
    it fires.
- Random draws come from a caller-supplied oracle that returns a value
  below its bound:
  - `intn(step, n)` in the construction;
  - `draw(attempt, step, n)` at the top level.

**Costs.** Weights are exact reals. The `1e-9` improvement threshold is the
constant `LocalSearch.Epsilon`.

## Model

| member | source | states |
|---|---|---|
| Graphs.Graph.constructor | pkg/graph.go:14-19 | A new graph has no nodes and no edges, so its node count and stored-edge total are both 0; the capacity hint changes nothing observable. |
| Graphs.Graph.AddEdge | pkg/graph.go:21-32 | Both endpoints join the node set and no node is removed. Exactly one edge (smaller endpoint, weight) is appended to the list of the larger endpoint, keeping the earlier entries in order. Every other list is untouched. The stored-edge total grows by one. The node count grows by at most two, and by none when both endpoints were known. The well-formedness invariant is kept. |
| Graphs.Graph.NodeCount | pkg/graph.go:34-36 | The number of distinct known nodes, zero exactly when none is known. The constructor and AddEdge rows state how it evolves. |
| Graphs.WithEdgeAddsOne | pkg/graph.go:31 | Recording one edge adds exactly one to the stored-edge total, whatever the key order of the sum. |
| Graphs.WithEdgeSymmetric | pkg/graph.go:23-24 | Recording a–b and recording b–a give the same edge map, so `AddEdge(a,b,w)` and `AddEdge(b,a,w)` reach identical states. |
| Graphs.WithEdgeWellFormed | pkg/graph.go:22-31 | Every stored edge points down to an endpoint no larger than its key, and both ends are known nodes; recording an edge keeps this. |
| Graphs.NodeGrowth | pkg/graph.go:27-28 | Adding two endpoints grows the node set by exactly the number it did not contain: between 0 and 2, and 0 exactly when both were present. |
| Graphs.TotalEdgesRemove | pkg/graph.go:38-44 | The stored-edge total does not depend on the order in which keys are summed. |
| Graphs.Graph.EdgeCount | pkg/graph.go:38-44 | Summing the list lengths in an arbitrary key order yields the stored-edge total. |
| Tours.PathCostConcat | pkg/solve.go:139-142 | The cost of two joined paths is the sum of their costs plus the weight of the joining edge. |
| Tours.PathCostSnoc | pkg/solve.go:139-142 | Appending a node to the path adds the weight of the new last edge to the running cost. |
| Tours.PathCostRev | pkg/solve.go:177-193 | Over an undirected lookup, a path costs the same in both directions. |
| Tours.RevAt | pkg/solve.go:202-208 | Position k of a reversed sequence holds the element k places from its end. |
| Tours.ReversedAt | pkg/solve.go:202-208 | Reversing path[i..j] puts old path[i+j-k] at each position k inside the segment and leaves every position outside it alone. |
| Tours.ReversedPermutes | pkg/solve.go:202-208 | Reversing a segment keeps the multiset of nodes. |
| LocalSearch.Reverse | pkg/solve.go:202-208 | The in-place swap loop leaves the array equal to the specification `Reversed` of its old contents. |
| LocalSearch.MoveCost | pkg/solve.go:177-193 | Over an undirected lookup, reversing path[i+1..j] changes the closed-tour cost by exactly the move's delta. This holds both with and without the wrap-around at j = size-1. |
| LocalSearch.MoveKeepsCycle | pkg/solve.go:182-191 | Over an undirected lookup, a move whose two new edges exist turns a closed tour of the graph into one. |
| LocalSearch.AppliedMove | pkg/solve.go:185-193 | An applied move reorders the nodes and lowers the cost (delta below zero). Over an undirected lookup, it changes the tour cost by exactly delta and keeps the tour closed. |
| LocalSearch.TracksMove | pkg/solve.go:189-193 | An applied move keeps the running-cost bookkeeping exact: same nodes, cost equal to the tour cost, still a closed tour. |
| LocalSearch.TracksTrans | pkg/solve.go:162-198 | The bookkeeping composes across successive stretches of the search. |
| LocalSearch.TryMove | pkg/solve.go:171-195 | For one pair (i, j): a move is applied exactly when (i, j) is not (0, size-1), both new edges exist, and the delta is below -1e-9. When applied, the array holds the reversal of path[i+1..j] and the returned delta is the move's delta. Otherwise the array is unchanged. |
| LocalSearch.SweepRow | pkg/solve.go:170-196 | Over every j for one i: the bookkeeping stays exact, and the cost drops by more than 1e-9 when a move was applied. When none was, the path is unchanged and no pair (i, j) offers an improving move. |
| LocalSearch.Sweep | pkg/solve.go:168-197 | One full sweep: the bookkeeping stays exact, and the cost drops by more than 1e-9 when a move was applied. When none was, the path is unchanged and is a 2-opt local optimum (`Stable`). |
| LocalSearch.TwoOpt | pkg/solve.go:158-200 | The result is a permutation of the input, and the returned cost is at most the input cost. Over an undirected lookup, an exact input cost stays exact and a closed tour stays closed. When it stops unconverged, every one of its `budget` sweeps improved the tour, so the cost fell by at least `budget` × 1e-9. When it converges, no visited pair offers a move whose new edges exist and whose delta is below -1e-9. |
| Construction.Scan | pkg/solve.go:103-113 | The neighbours of the current node, in arbitrary map order. Every pair is a real edge with its weight, every neighbour appears, and none appears twice; a node missing from the lookup has none. |
| Construction.Eligible | pkg/solve.go:109-113 | The unvisited candidates of a scan: exactly those scanned candidates whose node is not visited. |
| Construction.WorstIndex | pkg/solve.go:118-124 | The index of a heaviest kept candidate, the first such on ties (strict `>` comparison). |
| Construction.ReplaceWorst | pkg/solve.go:126-128 | Replacing the heaviest kept candidate with a lighter one drops only that candidate, and it weighs at least as much as everything that stays. |
| Construction.Offer | pkg/solve.go:115-129 | Offering one unvisited candidate keeps the best-of-3 invariant over the eligible candidates seen so far. |
| Construction.TopK | pkg/solve.go:106-130 | Given a scan with distinct nodes, it keeps min(3, number of unvisited neighbours) candidates with distinct nodes, all unvisited neighbours from the scan. No scanned unvisited neighbour left out is lighter than a kept one. The selection is empty exactly when every neighbour is visited. |
| Construction.KeptIsNear | pkg/solve.go:106-137 | Any kept candidate is an unvisited neighbour with fewer than 3 unvisited neighbours strictly closer, i.e. one of the 3 nearest. |
| Construction.NextStep | pkg/solve.go:103-137 | One step: on success the drawn node is one of the 3 nearest unvisited neighbours, with its edge weight. A dead end is reported exactly when every neighbour is visited. |
| Construction.NearWalkSnoc | pkg/solve.go:137-141 | Appending a node chosen by the nearest-3 rule keeps every step of the walk a nearest-3 step. |
| Construction.RandomizedNearestNeighbor | pkg/solve.go:88-155 | On success the path has numNodes distinct nodes (1 when numNodes is 0) and starts at startNode. Each step goes to one of the 3 nearest unvisited neighbours of the previous node (`NearWalk`), and the last node has an edge back to the first. The cost is the closed-tour cost. Otherwise it returns an empty path with cost 0. Success holds exactly when the walk reached full length and the closing edge exists. An early stop means the last node had no unvisited neighbour. |
| Orchestrator.BestOf | pkg/solve.go:60-68 | The best of a run of reported attempts: none exactly when there were no attempts; otherwise one of them, and no attempt is cheaper. |
| Orchestrator.BestOfFirstMinimum | pkg/solve.go:62-67 | Replacement on a strictly lower cost only, so ties keep the earliest cheapest attempt. |
| Orchestrator.BestState.constructor | pkg/solve.go:27-30 | Empty shared state: no best yet and zero completed cycles. |
| Orchestrator.BestState.Update | pkg/solve.go:60-68 | Counts one more completed cycle. A copy of the tour and its cost replace the best when they are the first or strictly cheaper; otherwise the best is unchanged. The best always equals `BestOf` of the reported attempts. |
| Orchestrator.BestState.Result | pkg/solve.go:79-83 | The answer is the best attempt, or an empty tour of cost 0 when none completed, together with the number of completed cycles. |
| Orchestrator.RunRound | pkg/solve.go:51-68 | One round: the construction starts at the node drawn for this round (`draw(round, 0, |nodes|)`). Its walk (`Constructed`) is distinct, runs along edges and steps to one of the 3 nearest unvisited neighbours. It is at most |nodes| long and stops short only at a node with no unvisited neighbour. An attempt is reported exactly when the construction reached every node and could close the tour. The report is appended to the history and reorders the construction's walk. It is 2-opt's result from that walk (`Refined`): it costs no more than the walk's tour, and either it is a 2-opt local optimum (`Stable`) or it is cheaper by at least `budget` × 1e-9. Failed rounds leave the history unchanged. |
| Orchestrator.CompleteWalks | pkg/solve.go:53-57 | The constructions that succeeded, in order: each one is a round's walk of full length with a closing edge. |
| Orchestrator.ImproveTour | pkg/solve.go:58 | 2-opt on a copy of the constructed tour: it returns a reordering of the tour that is `Refined` from it within `budget` sweeps. Over an undirected lookup, an exact cost stays exact and a closed tour stays closed. |
| Orchestrator.AccountedStep | pkg/solve.go:51-68 | One more round extends the per-round account (`Accounted`): a complete walk adds its one refined report, an incomplete one adds none. |
| Orchestrator.AccountedReported | pkg/solve.go:53-68 | The per-round account implies `Reported`: every walk is a construction, and the reports reorder the complete walks one for one, in order. |
| Orchestrator.AccountedStarts | pkg/solve.go:51 | The per-round account implies `StartsDrawn`: walk k starts at the node drawn for round k. |
| Orchestrator.AccountRound | pkg/solve.go:45-68 | One loop iteration with its account: the history grows by the round's one or zero reports, stays sound, and the account gains the round's walk and report. |
| Orchestrator.ReportedAdd | pkg/solve.go:55-61 | A round whose construction succeeded adds exactly one report, matching its walk. |
| Orchestrator.ReportedSkip | pkg/solve.go:55-57 | A round whose construction failed adds no report. |
| Orchestrator.StartsDrawnSnoc | pkg/solve.go:51-53 | Appending a round whose walk starts at the node drawn for that round keeps every walk starting at its drawn node. |
| Orchestrator.Worker | pkg/solve.go:42-71 | Over `rounds` rounds, returns each round's construction walk, and the shared history grows by exactly the reports. The account `Accounted` holds round by round. Walk k starts at the node drawn for round k and is a construction (`Constructed`): a distinct walk along edges that steps to one of the 3 nearest unvisited neighbours, is at most |nodes| long and stops short only at a node with no unvisited neighbour. When walk k is complete, the next report reorders it and is 2-opt's result from it within `sweeps(k)` sweeps (`Refined`). When it is not, no report belongs to it. Every report is sound (see `Sound`). |
| Orchestrator.SolveTSP | pkg/solve.go:18-84 | 0 nodes give an empty tour with cost 0 and 0 cycles. 1 node gives the node list itself with cost 0 and 1 cycle. Otherwise the cycles count the reported attempts, exactly one per round whose construction succeeded (`Reported`), and every attempt is sound. Round k's walk starts at the node drawn for it (`StartsDrawn`). Each attempt is 2-opt's result from its round's walk within that round's sweep budget (`Accounted`), as in `Worker`. The answer is the best attempt, or an empty tour of cost 0 when none completed. |
| Orchestrator.SolvedTour | pkg/solve.go:79-83 | For a duplicate-free node list whose undirected lookup leads only to listed nodes, a returned tour is a permutation of the nodes. It is a closed tour whose reported cost is its true cost, and no completed attempt's tour is cheaper. |

## Left out

- Concurrency (`pkg/solve.go:31-45`, `pkg/solve.go:73-77`) is not modelled.
  - This covers the worker goroutines, the `WaitGroup`, the mutex and the worker count from `runtime.NumCPU`.
  - All workers' reports reach `BestState` one at a time, in some order.
  - The model runs a single worker, whose rounds stand for that interleaving.
- LocalSearch.TwoOpt: the contract does not state that at most `budget` sweeps run. Only the loop's own termination measure does. What the contract states about the budget is the cost drop of at least `budget` × 1e-9 on an unconverged stop.
- The wall-clock deadline (`context.WithTimeout`) is left out. It is replaced by the round budget in `Orchestrator.Worker` and the sweep budget in `LocalSearch.TwoOpt`.
- `math/rand` seeded from the clock (`pkg/solve.go:44`, `pkg/solve.go:75`) is left out. It is replaced by the draw oracles.
- Float64 rounding is left out. Weights and costs are exact reals.
- `math.MaxFloat64` as the initial best cost is replaced by the `found` flag, so the first completed attempt is always recorded. In Go, an attempt whose cost is `+Inf` or exactly `MaxFloat64` would not be recorded.
- zerolog logging is left out; it is diagnostics only.
- The node count in `SolveTSP` is the length of the solver's node list, not `Graph.NodeCount`. The two graph interfaces do not meet in the source.
- The command-line reader in `cmd/solver/main.go` and the flag demo in `main.go` are not part of this model. They are file and flag I/O.
