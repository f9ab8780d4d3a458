# Frog shops: a verified model of the covering engine

The program places "frog shops" on the cities of an undirected graph. A shop
serves its own city and every city within `d` hops of it. The program looks
for a small set of shops that serves every city, in three phases:

1. It builds a distance index `closeCities`. For every city it runs a
   breadth-first search bounded by `d` hops and lists the cities it reaches.
2. It takes a greedy placement: it scans the cities in increasing order and
   opens a shop at every city not yet served.
3. It refines that placement by simulated annealing. A random move removes
   one shop or adds one. A move that leaves a city unserved is discarded. A
   smaller placement is always accepted, and a larger or equal one is
   accepted when a Metropolis test passes. The best placement seen is kept.
   The search stops when the temperature falls below 0.01, and otherwise it
   cools by the factor 0.9999.

The model is imperative, like the program. `FrogShops.Graph` is a class
holding the adjacency lists and the index as arrays. Its methods are the
program's methods, with loop invariants, and each is proved against a
specification function:

- `Hops.Ball`: the cities reachable by a walk of at most `k` edges.
- `Coverage.Covered` and `Coverage.Feasible`: which cities a placement serves.
- `Coverage.GreedyChoices`: the choices of the greedy scan.
- `Annealing.Step` and `Annealing.Run`: one iteration of the search, and
  many.

Lemmas then prove what the program relies on:

- The index lists exactly the cities within `d` hops, each once, the start
  city first.
- A placement is feasible exactly when the uncovered count is 0.
- The greedy placement is feasible and uniquely determined.
- Every move keeps ids in range and adds no duplicate.
- The current and best placements stay feasible and duplicate-free.
- The best placement's size never increases.

The random generator is modelled as a stream `rng: nat -> nat`. The search
state carries a cursor into it, so each draw is `rng(i)` for the next unused
position `i`. The test `exp((currentEnergy - neighborEnergy) / temperature) >
U` becomes an oracle `metropolis(delta, temperature, draw)`. The 26-second
deadline becomes a bound `fuel` on the number of iterations.

Module layout:

- `hops.dfy`, module `Hops`: hop distances, `Ball`, and what a correct
  listing of a ball is (`BallListing`).
- `frontier.dfy`, module `Frontier`: the invariant of the bounded
  breadth-first search (`Searching`, `Scanning`) and the lemmas for each of
  its steps.
- `coverage.dfy`, module `Coverage`: coverage, feasibility, the uncovered
  count, the greedy choices, and their link to covering the graph with balls.
- `annealing.dfy`, module `Annealing`: the neighbour move, one iteration of
  the search, runs of many iterations, and what they preserve.
- `graph.dfy`, module `FrogShops`: the class `Graph` with the program's
  methods, and a worked example.

The program's loops appear as methods of their own:

- `Explore` is one breadth-first search of `preprocessDistances`.
- `ProcessFront` is one round of that search's loop: dequeue, skip or list, expand.
- `VisitNeighbors` is its inner loop over the neighbours.
- `Iterate` is one pass of the annealing loop.
- `ConsiderNeighbor` is its acceptance step.

## Model

| member | source | states |
|---|---|---|
| FrogShops.Graph.constructor | IndividualProject/main.cpp:82-87 | a graph of `n` cities starts with no edges and an empty index, and satisfies the class invariant |
| FrogShops.Graph.AddEdge | IndividualProject/main.cpp:89-94 | `c2` is appended to the list of `c1` and `c1` to the list of `c2`, so a self-loop is listed twice; no other list changes, and the lists stay symmetric and in range |
| FrogShops.Graph.Explore | IndividualProject/main.cpp:24-45 | the search from `s` bounded by `d` lists each city within `d` hops exactly once, `s` first, and nothing else |
| FrogShops.Graph.ProcessFront | IndividualProject/main.cpp:31-44 | one round of the loop drops the front entry from the queue and appends only entries for neighbours of its city, one hop further and unvisited at the start of the round; it lists the city exactly when its hop count is within `d`, and otherwise leaves the queue at its tail and the listing unchanged; the search invariant is kept, and the unvisited cities or the queue shrink |
| FrogShops.Graph.VisitNeighbors | IndividualProject/main.cpp:39-44 | the inner loop keeps the old queue as a prefix and appends only entries for neighbours of `u` that were unvisited at the call, each with hop count `distance + 1`; afterwards every neighbour of `u` is visited; the search invariant is kept and the entry counts as expanded |
| FrogShops.Graph.PreprocessDistances | IndividualProject/main.cpp:23-47 | each city's entry gets the listing of its radius-`d` ball appended, and its earlier content is kept |
| FrogShops.Graph.MarkCovered | IndividualProject/main.cpp:57-66 | entry `v` is true exactly when some shop is `v` itself or lists `v` in its index entry; every other entry is false |
| FrogShops.Graph.CalculateUncovered | IndividualProject/main.cpp:49-55 | the result is the number of false entries; it lies in [0, C] and is 0 exactly when all entries are true |
| FrogShops.Graph.BuildGreedily | IndividualProject/main.cpp:131-144 | the result is strictly increasing, opens a shop exactly at each city no earlier shop indexes, and is feasible; when every city indexes itself, the index entries alone cover every city |
| FrogShops.Graph.GenerateNeighbor | IndividualProject/main.cpp:68-79 | the move removes one position, appends one absent city in [0, C), or changes nothing; it draws one or two outputs, keeps ids in range and adds no duplicate |
| FrogShops.Graph.Iterate | IndividualProject/main.cpp:109-125 | one pass of the annealing loop yields exactly the state and stop decision of `Annealing.Step`, and keeps the current ids in range |
| FrogShops.Graph.ConsiderNeighbor | IndividualProject/main.cpp:113-122 | the acceptance step yields `Annealing.Consider`; a strictly smaller neighbour is accepted without a draw, and the current placement becomes the neighbour or stays |
| FrogShops.Graph.Anneal | IndividualProject/main.cpp:101-128 | the loop returns the best placement of `Annealing.Run`; it is no larger than the greedy start, in range, feasible when the start is, and duplicate-free when the start is |
| FrogShops.Graph.FindFrogShops | IndividualProject/main.cpp:96-129 | the result is the best placement of the annealing run started from the greedy placement of the new index (the only placement the greedy scan can produce); it is feasible, duplicate-free, in range and no larger than the greedy one; on a fresh index every city is a shop or within `d` hops of one |
| FrogShops.PathIndexed | IndividualProject/main.cpp:37-43 | on the path of five cities, the listed entries form the radius-1 index: each lists the city first and then exactly the cities one hop away, each once |
| FrogShops.GreedyNotMinimal | IndividualProject/main.cpp:131-144 | on the path of five cities with radius 1, the greedy scan opens shops at 0, 2 and 4, yet shops 1 and 3 serve every city and no single shop does |
| Hops.BallSymmetric | IndividualProject/main.cpp:89-91 | since every edge is listed at both ends, `x` is within `k` hops of `s` exactly when `s` is within `k` hops of `x` |
| Hops.IsolatedBall | IndividualProject/main.cpp:31-44 | a city without edges is within any radius of itself and of no other city |
| Hops.RadiusZeroListing | IndividualProject/main.cpp:31-44 | with radius 0 the only correct listing from `s` is `[s]` |
| Hops.EdgeAdded | IndividualProject/main.cpp:89-94 | appending each end of a new edge to the other's list keeps all lists in range and every edge recorded at both ends |
| Hops.BallOne | IndividualProject/main.cpp:37-43 | the ball of radius 1 is exactly the city and its neighbours |
| Hops.BallGrows | IndividualProject/main.cpp:31-44 | balls grow with the radius |
| Hops.Prepend | IndividualProject/main.cpp:39-43 | an edge before a walk of at most `k` edges gives a walk of at most `k + 1` edges |
| Frontier.Begin | IndividualProject/main.cpp:25-29 | after the start city is marked and queued with hop count 0, the search invariant holds |
| Frontier.Pop | IndividualProject/main.cpp:32-37 | taking the front entry off the queue keeps the invariant; the entry is recorded exactly when its hop count is within `d`, and one beyond `d` needs no expansion |
| Frontier.Push | IndividualProject/main.cpp:40-43 | queueing an unvisited neighbour with one more hop keeps the invariant; that hop count is its exact distance, and the city leaves the unvisited set |
| Frontier.PushExact | IndividualProject/main.cpp:41 | a neighbour outside the ball of the expanded entry lies exactly one hop further than that entry |
| Frontier.NotYetReached | IndividualProject/main.cpp:40 | a city not yet visited is further away than the entry being expanded, whose hop count is exact |
| Frontier.PushDistance | IndividualProject/main.cpp:40-41 | a neighbour not yet visited of the entry being expanded is a city, and queueing it one hop further keeps every hop count exact and the queue ordered by hop count |
| Frontier.ScanStart | IndividualProject/main.cpp:37-39 | after an entry within `d` is recorded, the inner loop starts with none of its neighbours accounted for |
| Frontier.ScanSeen | IndividualProject/main.cpp:40 | a neighbour already visited is left alone and the inner loop's invariant advances |
| Frontier.ScanPush | IndividualProject/main.cpp:40-43 | an unvisited neighbour is marked and queued one hop further, and the inner loop's invariant advances |
| Frontier.ScanDone | IndividualProject/main.cpp:39-44 | once all neighbours are scanned, every neighbour is marked, the entry is expanded and the search invariant holds again |
| Frontier.Closure | IndividualProject/main.cpp:31-44 | while every entry closer than `m` hops has been expanded, every city within `j <= m` hops has been queued with a hop count of at most `j` |
| Frontier.Finish | IndividualProject/main.cpp:31-45 | once the queue is empty, the recorded cities are exactly those within `d` hops, each once, the start city first |
| Coverage.CountFalseBounds | IndividualProject/main.cpp:49-55 | the number of false entries lies in [0, length] and is 0 exactly when every entry is true |
| Coverage.UncoveredIffInfeasible | IndividualProject/main.cpp:110-111 | the uncovered count of a coverage vector is positive exactly when the placement leaves some city unserved |
| Coverage.GreedyChoicesFeasible | IndividualProject/main.cpp:131-144 | the greedy choices serve every city, counting each shop's own city |
| Coverage.GreedyChoicesIndexCoverAll | IndividualProject/main.cpp:131-144 | when every city indexes itself, the greedy shops' index entries cover every city |
| Coverage.GreedyChoicesUnique | IndividualProject/main.cpp:131-144 | only one strictly increasing list of cities obeys the greedy choices, so the greedy placement is determined by the index |
| Coverage.FeasibleIffBallCover | IndividualProject/main.cpp:57-66 | against an index of radius `d`, a placement is feasible exactly when every city is a shop or within `d` hops of one |
| Coverage.IndexSymmetric | IndividualProject/main.cpp:23-47 | in the index of an undirected graph, `u` is in the entry of `s` exactly when `s` is in the entry of `u` |
| Coverage.IsolatedCityInEveryFeasible | IndividualProject/main.cpp:57-66 | a city without edges must itself be a shop in every feasible placement |
| Coverage.RadiusZeroIndex | IndividualProject/main.cpp:23-47 | with radius 0 every entry of the index is the city alone |
| Coverage.RadiusZeroNeedsAll | IndividualProject/main.cpp:57-66 | with radius 0 every feasible placement contains every city |
| Annealing.NeighborOf | IndividualProject/main.cpp:68-79 | defines the move: with a non-empty placement an odd draw removes the entry at the position of the next draw; otherwise a further draw names a city, appended when absent; it returns the neighbour and the next unused draw (its properties are stated by `NeighborMoves`) |
| Annealing.Start | IndividualProject/main.cpp:99-106 | defines the state before the first iteration: the greedy placement as both current and best, energies equal to its size, temperature 3000, no draw used (its consequences are stated by `RunBest`) |
| Annealing.Consider | IndividualProject/main.cpp:113-122 | defines acceptance of a feasible neighbour: a strictly smaller one is taken without a draw, any other only when the Metropolis test on one draw passes; an accepted one becomes current, and best when strictly smaller than the best (stated by `ConsiderNeighbor` and `StepKeeps`) |
| Annealing.Step | IndividualProject/main.cpp:109-125 | defines one iteration: an infeasible neighbour is discarded; a feasible one is considered, then the search stops when the temperature is below 0.01 and otherwise cools (stated by `StepKeeps`, `StepDiscardsInfeasible`, `StepAcceptsImprovement`, `StepCools`) |
| Annealing.Run | IndividualProject/main.cpp:108-126 | defines the loop: iterations until one stops the search or `fuel` runs out (stated by `RunStep`, `RunKeeps`, `RunBest`) |
| Annealing.NeighborMoves | IndividualProject/main.cpp:68-79 | a move removes one position, appends one absent city, or changes nothing; it uses one or two draws, keeps ids in range and adds no duplicate |
| Annealing.RunStep | IndividualProject/main.cpp:108-126 | a run with fuel left performs one step and continues from its result unless that step stops the search |
| Annealing.StepKeeps | IndividualProject/main.cpp:109-125 | an iteration keeps the energies equal to the sizes and ids in range; the best energy never increases and changes only to a strictly smaller current placement; feasibility and the absence of duplicates are kept |
| Annealing.StepDiscardsInfeasible | IndividualProject/main.cpp:109-111 | a neighbour that leaves a city unserved is discarded; only the draws advance, and the temperature is neither tested nor cooled |
| Annealing.StepAcceptsImprovement | IndividualProject/main.cpp:113-117 | a feasible neighbour strictly smaller than the current placement always becomes the current placement |
| Annealing.StepCools | IndividualProject/main.cpp:124-125 | after a feasible neighbour the search stops exactly when the temperature is strictly below 0.01, and otherwise the temperature is multiplied by 0.9999 |
| Annealing.RunKeeps | IndividualProject/main.cpp:108-126 | across any number of iterations the state stays consistent, the best energy never exceeds its start, and the current and best placements stay feasible and duplicate-free |
| Annealing.RunBest | IndividualProject/main.cpp:101-128 | a run's best placement is no larger than the start, in range, feasible when the start is, and duplicate-free when the start is |

## Left out

- `main` and the stream I/O that reads the graph and `d` and prints the result (IndividualProject/main.cpp:147 on) are not modelled.
- The 26-second deadline and the global `startTime` become the iteration bound `fuel`. The model says nothing about how many iterations fit in the deadline.
- The `mt19937` generator, its seeding from the clock, and the distribution of `rng() % k` are not modelled. The model reads its draws from the stream `rng` in the order the program draws them.
- Floating point is not modelled. The temperature is an exact real, the cooling rate and floor are the program's constants, and the `exp`-against-uniform test is the oracle `metropolis`.
- The fields `R` and `Degree` have no effect on any result and are not modelled.
- Three computed values are never used and are not modelled: the parameter `solution` of `calculateUncovered`, the parameter `d` of `buildGreedily`, and the vector `covered` computed on line 100 of `findFrogShops`.
- FrogShops.Graph.GenerateNeighbor requires `C > 0`, as do `Iterate`, `Anneal` and `FindFrogShops`. For `C == 0` the program reduces `rng() % C`, which is undefined.
- FrogShops.Graph.MarkCovered requires every shop id to be a city. The program indexes `covered[shop]` without a check.
- FrogShops.Graph.AddEdge requires both ends to be cities, because the program indexes the lists without a check.
- FrogShops.Graph.Explore returns its listing, and `PreprocessDistances` appends it to the entry at once. The program pushes each city onto the entry as it is dequeued. The entry ends up the same, but the intermediate states of the entry are not modelled.
- Integer widths are not modelled. Sizes, ids and hop counts stay below `C`, so the program's `int` arithmetic does not overflow for any graph it can hold.
