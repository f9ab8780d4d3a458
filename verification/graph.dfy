/**
 * The covering engine: a graph of C cities given by adjacency lists, the
 * distance index `closeCities` built from it by breadth-first search, and the
 * search for a small feasible placement of shops (a greedy scan refined by
 * simulated annealing).
 */
module FrogShops {
  import opened Hops
  import opened Coverage
  import opened Annealing
  import opened Frontier

  /** `after` is `before` with a listing of the cities within `d` hops of `s` appended. */
  ghost predicate AppendedListing(adj: seq<seq<int>>, s: int, d: int, before: seq<int>, after: seq<int>)
  {
    |before| <= |after| && after[..|before|] == before && BallListing(adj, s, d, after[|before|..])
  }

  /** `g` is the placement the greedy scan produces over the index `close` of `n` cities. */
  ghost predicate IsGreedy(close: seq<seq<int>>, n: int, g: seq<int>)
  {
    GreedyChoices(close, n, g) && StrictlyIncreasing(g) && InRange(g, n)
  }

  /** The path 0 - 1 - 2 - 3 - 4, with its edges added in order. */
  const PathAdjacency: seq<seq<int>> := [[1], [0, 2], [1, 3], [2, 4], [3]]
  /** The index of radius 1 of the path, each entry in the order the search lists it. */
  const PathIndex: seq<seq<int>> := [[0, 1], [1, 0, 2], [2, 1, 3], [3, 2, 4], [4, 3]]

  /** On the path, the index of radius 1 lists each city with its neighbours. */
  lemma PathIndexed()
    ensures Indexed(PathAdjacency, PathIndex, 1)
  {
    forall s | 0 <= s < 5
      ensures BallListing(PathAdjacency, s, 1, PathIndex[s])
    {
      forall v
        ensures v in PathIndex[s] <==> Within(PathAdjacency, s, v, 1)
      {
        BallOne(PathAdjacency, s, v);
      }
    }
  }

  /**
   * On the path with radius 1 the greedy scan opens shops at 0, 2 and 4,
   * although the two shops 1 and 3 serve every city and no single shop
   * does: the greedy placement need not be the smallest.
   */
  lemma GreedyNotMinimal()
    ensures IsGreedy(PathIndex, 5, [0, 2, 4])
    ensures Feasible(PathIndex, 5, [1, 3])
    ensures forall sol :: |sol| <= 1 ==> !Feasible(PathIndex, 5, sol)
  {
    var close := PathIndex;
    var greedy := [0, 2, 4];
    forall v | 0 <= v < 5
      ensures v in greedy <==> !CoveredEarlier(close, greedy, v)
    {
      if v == 1 || v == 3 {
        assert v - 1 in greedy && IndexCovers(close, v - 1, v);
      } else {
        forall shop | shop in greedy && shop < v
          ensures !IndexCovers(close, shop, v)
        {
        }
      }
    }
    forall v | 0 <= v < 5
      ensures Covered(close, [1, 3], v)
    {
      var shop := if v < 3 then 1 else 3;
      assert shop in [1, 3] && Reaches(close, shop, v);
    }
    forall sol | |sol| <= 1
      ensures !Feasible(close, 5, sol)
    {
      var v := if sol != [] && 0 <= sol[0] <= 1 then 4 else 0;
      assert !Covered(close, sol, v) by {
        forall shop | shop in sol
          ensures !Reaches(close, shop, v)
        {
          assert shop == sol[0];
        }
      }
    }
  }

  class Graph {
    /** The number of cities, numbered 0 .. C - 1. */
    const C: nat
    /** `adjacency[u]` lists the neighbours of `u` in the order the edges were added. */
    const adjacency: array<seq<int>>
    /** `closeCities[s]` is the distance index entry of `s`: the cities a shop at `s` serves. */
    const closeCities: array<seq<int>>

    /** The graph is undirected and its lists name only its cities, and the index is well formed. */
    ghost predicate Valid()
      reads this, adjacency, closeCities
    {
      && adjacency.Length == C
      && adjacency != closeCities
      && WellFormed(adjacency[..])
      && Symmetric(adjacency[..])
      && IndexValid()
    }

    /** The index has an entry per city, naming only cities. */
    ghost predicate IndexValid()
      reads this, closeCities
    {
      && closeCities.Length == C
      && (forall s :: 0 <= s < C ==> InRange(closeCities[s], C))
    }

    /** A graph of `n` cities without edges and with an empty distance index. */
    constructor (n: nat)
      ensures Valid() && C == n
      ensures fresh(adjacency) && fresh(closeCities)
      ensures forall v :: 0 <= v < n ==> adjacency[v] == [] && closeCities[v] == []
    {
      C := n;
      adjacency := new seq<int>[n](_ => []);
      closeCities := new seq<int>[n](_ => []);
    }

    /**
     * Adds the undirected edge between `c1` and `c2`: each end gets the
     * other appended to its list, so a self-loop lists its city twice.
     */
    method AddEdge(c1: int, c2: int)
      requires Valid() && 0 <= c1 < C && 0 <= c2 < C
      modifies adjacency
      ensures Valid()
      ensures forall u :: 0 <= u < C ==>
        adjacency[u] == old(adjacency[u]) + (if u == c1 then [c2] else []) + (if u == c2 then [c1] else [])
    {
      ghost var adj := adjacency[..];
      adjacency[c1] := adjacency[c1] + [c2];
      adjacency[c2] := adjacency[c2] + [c1];
      ghost var adj' := adjacency[..];
      assert forall u :: 0 <= u < C ==>
        adj'[u] == adj[u] + (if u == c1 then [c2] else []) + (if u == c2 then [c1] else []);
      EdgeAdded(adj, adj', c1, c2);
    }

    /**
     * The breadth-first search from `s` bounded by `d` hops: lists each city
     * within `d` hops of `s` exactly once, `s` first; cities taken off the
     * queue further than `d` hops away are neither listed nor expanded.
     */
    method Explore(s: int, d: int) returns (found: seq<int>)
      requires Valid() && 0 <= s < C
      ensures BallListing(adjacency[..], s, d, found)
      ensures InRange(found, C)
    {
      ghost var adj := adjacency[..];
      var visited := new bool[C](_ => false);
      var q: seq<(int, int)> := [(s, 0)];
      visited[s] := true;
      found := [];
      ghost var hist := q;
      ghost var head := 0;
      ghost var pos: map<int, nat> := map[s := 0];
      ghost var unseen := set v | 0 <= v < C && !visited[v];
      Begin(adj, s, d, visited[..], unseen);
      while q != []
        invariant visited.Length == C && adj == adjacency[..]
        invariant Searching(adj, s, d, visited[..], q, found, hist, head, pos, unseen)
        invariant ExpandedBelow(adj, d, hist, pos, head)
        decreases |unseen|, |q|
      {
        q, found, hist, head, pos, unseen := ProcessFront(visited, q, found, s, d, hist, head, pos, unseen);
      }
      Finish(adj, s, d, visited[..], found, hist, head, pos, unseen);
    }

    /**
     * One round of the search loop: takes the front entry off the queue and,
     * when it lies within `d` hops, lists its city and visits its neighbours.
     */
    method ProcessFront(visited: array<bool>, q: seq<(int, int)>, found: seq<int>, ghost s: int, d: int,
                        ghost hist: seq<(int, int)>, ghost head: int, ghost pos: map<int, nat>, ghost unseen: set<int>)
      returns (q': seq<(int, int)>, found': seq<int>, ghost hist': seq<(int, int)>, ghost head': int,
               ghost pos': map<int, nat>, ghost unseen': set<int>)
      requires adjacency.Length == C && visited.Length == C && q != []
      requires Searching(adjacency[..], s, d, visited[..], q, found, hist, head, pos, unseen)
      requires ExpandedBelow(adjacency[..], d, hist, pos, head)
      modifies visited
      ensures Searching(adjacency[..], s, d, visited[..], q', found', hist', head', pos', unseen')
      ensures ExpandedBelow(adjacency[..], d, hist', pos', head')
      ensures |unseen'| < |unseen| || (|unseen'| == |unseen| && |q'| < |q|)
      ensures head' == head + 1 && |q'| >= |q| - 1 && q'[..|q| - 1] == q[1..] && hist' == hist + q'[|q| - 1..]
      ensures q[0].1 > d ==> found' == found && q' == q[1..]
      ensures q[0].1 <= d ==> found' == found + [q[0].0]
      ensures forall i :: |q| - 1 <= i < |q'| ==>
        q'[i].1 == q[0].1 + 1 && q'[i].0 in adjacency[q[0].0] && q'[i].0 in unseen
    {
      Pop(adjacency[..], s, d, visited[..], q, found, hist, head, pos, unseen);
      var (u, distance) := q[0];
      q', found', hist', head', pos', unseen' := q[1..], found, hist, head + 1, pos, unseen;
      if distance > d {
        assert q'[..|q| - 1] == q[1..] && q'[|q| - 1..] == [];
        return;
      }
      found' := found' + [u];
      q', hist', pos', unseen' := VisitNeighbors(visited, q', u, distance, s, d, found', hist', head', pos', unseen');
    }

    /**
     * The inner loop of the search: marks and queues, with hop count
     * `distance + 1`, each neighbour of `u` not yet visited, in list order.
     */
    method VisitNeighbors(visited: array<bool>, q: seq<(int, int)>, u: int, distance: int,
                          ghost s: int, ghost d: int, ghost found: seq<int>, ghost hist: seq<(int, int)>,
                          ghost head: int, ghost pos: map<int, nat>, ghost unseen: set<int>)
      returns (queue: seq<(int, int)>, ghost hist': seq<(int, int)>, ghost pos': map<int, nat>, ghost unseen': set<int>)
      requires adjacency.Length == C && WellFormed(adjacency[..]) && visited.Length == C
      requires Searching(adjacency[..], s, d, visited[..], q, found, hist, head, pos, unseen)
      requires 0 < head <= |hist| && hist[head - 1] == (u, distance) && distance <= d
      requires ExpandedBelow(adjacency[..], d, hist, pos, head - 1)
      modifies visited
      ensures Searching(adjacency[..], s, d, visited[..], queue, found, hist', head, pos', unseen')
      ensures ExpandedBelow(adjacency[..], d, hist', pos', head)
      ensures |unseen'| + |queue| == |unseen| + |q|
      ensures |queue| >= |q| && queue[..|q|] == q && hist' == hist + queue[|q|..]
      ensures forall i :: |q| <= i < |queue| ==>
        queue[i].1 == distance + 1 && queue[i].0 in adjacency[u] && queue[i].0 in unseen
      ensures forall w :: w in adjacency[u] ==> 0 <= w < C && visited[w]
    {
      ghost var adj := adjacency[..];
      queue, hist', pos', unseen' := q, hist, pos, unseen;
      assert Extended(adj, u, distance, unseen, q, queue, hist, hist') by {
        assert queue[|q|..] == [];
      }
      ScanStart(adj, s, d, visited[..], q, found, hist, head, pos, unseen);
      var neighbors := adjacency[u];
      for j := 0 to |neighbors|
        invariant visited.Length == C && adj == adjacency[..] && neighbors == adj[u]
        invariant Scanning(adj, s, d, visited[..], queue, found, hist', head, pos', unseen', u, j)
        invariant hist'[head - 1] == (u, distance)
        invariant |unseen'| + |queue| == |unseen| + |q|
        invariant unseen' <= unseen && Extended(adj, u, distance, unseen, q, queue, hist, hist')
      {
        var w := neighbors[j];
        ScanTarget(adj, s, d, visited[..], queue, found, hist', head, pos', unseen', u, j);
        if !visited[w] {
          ghost var marks := visited[..];
          assert (w, distance + 1) == (w, hist'[head - 1].1 + 1);
          ScanPush(adj, s, d, marks, queue, found, hist', head, pos', unseen', u, j, w);
          ExtendedPush(adj, u, distance, unseen, q, queue, hist, hist', w);
          queue := queue + [(w, distance + 1)];
          visited[w] := true;
          assert visited[..] == marks[w := true];
          pos' := pos'[w := |hist'|];
          hist' := hist' + [(w, distance + 1)];
          unseen' := unseen' - {w};
        } else {
          ScanSeen(adj, s, d, visited[..], queue, found, hist', head, pos', unseen', u, j);
        }
      }
      ScanDone(adj, s, d, visited[..], queue, found, hist', head, pos', unseen', u);
    }

    /**
     * Builds the distance index of radius `d`: appends to each city's entry
     * the listing of the cities within `d` hops of it.
     */
    method PreprocessDistances(d: int)
      requires Valid()
      modifies closeCities
      ensures Valid()
      ensures forall s :: 0 <= s < C ==> AppendedListing(adjacency[..], s, d, old(closeCities[s]), closeCities[s])
    {
      for s := 0 to C
        invariant Valid()
        invariant forall t :: 0 <= t < s ==> AppendedListing(adjacency[..], t, d, old(closeCities[t]), closeCities[t])
        invariant forall t :: s <= t < C ==> closeCities[t] == old(closeCities[t])
      {
        var found := Explore(s, d);
        ghost var before := closeCities[s];
        closeCities[s] := closeCities[s] + found;
        assert closeCities[s][|before|..] == found;
        forall i | 0 <= i < |closeCities[s]|
          ensures 0 <= closeCities[s][i] < C
        {
          if i >= |before| {
            assert closeCities[s][i] == found[i - |before|];
          } else {
            assert closeCities[s][i] == before[i];
          }
        }
      }
    }

    /**
     * The coverage vector of `solution`: entry `v` is true exactly when
     * some shop of `solution` serves `v`, that is, is `v` itself or has `v`
     * in its index entry.
     */
    method MarkCovered(solution: seq<int>) returns (covered: seq<bool>)
      requires IndexValid() && InRange(solution, C)
      ensures |covered| == C
      ensures forall v :: 0 <= v < C ==> (covered[v] <==> Covered(closeCities[..], solution, v))
    {
      ghost var close := closeCities[..];
      var marks := new bool[C](_ => false);
      for i := 0 to |solution|
        invariant close == closeCities[..]
        invariant forall v :: 0 <= v < C ==> (marks[v] <==> Covered(close, solution[..i], v))
      {
        var shop := solution[i];
        marks[shop] := true;
        var cities := closeCities[shop];
        for j := 0 to |cities|
          invariant close == closeCities[..]
          invariant forall v :: 0 <= v < C ==>
            (marks[v] <==> Covered(close, solution[..i], v) || v == shop || v in cities[..j])
        {
          marks[cities[j]] := true;
          assert cities[..j + 1] == cities[..j] + [cities[j]];
        }
        assert solution[..i + 1] == solution[..i] + [shop];
        forall v | 0 <= v < C
          ensures marks[v] <==> Covered(close, solution[..i + 1], v)
        {
          assert cities[..|cities|] == cities;
          if Covered(close, solution[..i + 1], v) {
            var t :| t in solution[..i + 1] && Reaches(close, t, v);
            if t != shop {
              assert t in solution[..i];
            }
          }
          if Covered(close, solution[..i], v) {
            var t :| t in solution[..i] && Reaches(close, t, v);
            assert t in solution[..i + 1];
          }
          if v == shop || v in cities {
            assert Reaches(close, shop, v);
          }
        }
      }
      assert solution[..|solution|] == solution;
      covered := marks[..];
    }

    /** The number of uncovered cities: in [0, C], and 0 exactly when every city is covered. */
    method CalculateUncovered(covered: seq<bool>) returns (uncovered: int)
      requires |covered| == C
      ensures uncovered == CountFalse(covered)
      ensures 0 <= uncovered <= C
      ensures uncovered == 0 <==> forall v :: 0 <= v < C ==> covered[v]
    {
      uncovered := 0;
      for i := 0 to C
        invariant uncovered == CountFalse(covered[..i])
      {
        assert covered[..i + 1][..i] == covered[..i];
        if !covered[i] {
          uncovered := uncovered + 1;
        }
      }
      assert covered[..C] == covered;
      CountFalseBounds(covered);
    }

    /**
     * The greedy placement: scanning 0 .. C - 1, a city still uncovered
     * becomes a shop and marks its index entry covered. The result is
     * strictly increasing, obeys the greedy choices and is feasible.
     */
    method BuildGreedily() returns (solution: seq<int>)
      requires IndexValid()
      ensures IsGreedy(closeCities[..], C, solution)
      ensures Feasible(closeCities[..], C, solution)
      ensures (forall v :: 0 <= v < C ==> v in closeCities[v]) ==>
        forall v :: 0 <= v < C ==> IndexCovered(closeCities[..], solution, v)
    {
      ghost var close := closeCities[..];
      solution := [];
      var covered := new bool[C](_ => false);
      for i := 0 to C
        invariant close == closeCities[..]
        invariant StrictlyIncreasing(solution)
        invariant forall k :: 0 <= k < |solution| ==> 0 <= solution[k] < i
        invariant forall v :: 0 <= v < C ==> (covered[v] <==> IndexCovered(close, solution, v))
        invariant forall v :: 0 <= v < i ==> (v in solution <==> !CoveredEarlier(close, solution, v))
      {
        if !covered[i] {
          ghost var previous := solution;
          solution := solution + [i];
          var cities := closeCities[i];
          for j := 0 to |cities|
            invariant close == closeCities[..]
            invariant forall v :: 0 <= v < C ==>
              (covered[v] <==> IndexCovered(close, previous, v) || v in cities[..j])
          {
            covered[cities[j]] := true;
            assert cities[..j + 1] == cities[..j] + [cities[j]];
          }
          assert cities[..|cities|] == cities;
          forall v | 0 <= v < C
            ensures covered[v] <==> IndexCovered(close, solution, v)
          {
            if IndexCovered(close, solution, v) {
              var t :| t in solution && IndexCovers(close, t, v);
              if t != i {
                assert t in previous;
              }
            }
            if IndexCovered(close, previous, v) {
              var t :| t in previous && IndexCovers(close, t, v);
              assert t in solution;
            }
            if v in cities {
              assert IndexCovers(close, i, v);
            }
          }
          forall v | 0 <= v <= i
            ensures v in solution <==> !CoveredEarlier(close, solution, v)
          {
            if CoveredEarlier(close, solution, v) {
              var t :| t in solution && t < v && IndexCovers(close, t, v);
              assert t in previous;
            }
            if v < i && CoveredEarlier(close, previous, v) {
              var t :| t in previous && t < v && IndexCovers(close, t, v);
              assert t in solution;
            }
          }
        } else {
          assert CoveredEarlier(close, solution, i) by {
            var t :| t in solution && IndexCovers(close, t, i);
            assert t < i;
          }
        }
      }
      GreedyChoicesFeasible(close, C, solution);
      if forall v :: 0 <= v < C ==> v in closeCities[v] {
        GreedyChoicesIndexCoverAll(close, C, solution);
      }
    }

    /**
     * The random unit move of the search, drawing from `rng` at `next` on:
     * removes one position, appends one absent city, or changes nothing.
     */
    method GenerateNeighbor(current: seq<int>, rng: nat -> nat, next: nat) returns (neighbor: seq<int>, after: nat)
      requires C > 0
      ensures (neighbor, after) == NeighborOf(C, current, rng, next)
      ensures RemovesOne(current, neighbor) || AddsAbsent(C, current, neighbor) || neighbor == current
      ensures next < after <= next + 2
      ensures InRange(current, C) ==> InRange(neighbor, C)
      ensures Distinct(current) ==> Distinct(neighbor)
    {
      neighbor := current;
      after := next;
      var coin := 0;
      if |neighbor| > 0 {
        coin := rng(after);
        after := after + 1;
      }
      if |neighbor| > 0 && coin % 2 == 1 {
        var position := rng(after) % |neighbor|;
        after := after + 1;
        neighbor := neighbor[..position] + neighbor[position + 1..];
      } else {
        var randomCity := rng(after) % C;
        after := after + 1;
        if randomCity !in neighbor {
          neighbor := neighbor + [randomCity];
        }
      }
      NeighborMoves(C, current, rng, next);
    }

    /**
     * One iteration of the annealing loop of findFrogShops from `state`:
     * draws a neighbour, discards it when some city is left uncovered,
     * otherwise accepts it when strictly smaller or when the Metropolis test
     * passes, records an accepted neighbour smaller than the best, and then
     * either stops, below the temperature floor, or cools.
     */
    method Iterate(state: SearchState, rng: nat -> nat, metropolis: (int, real, nat) -> bool)
      returns (state': SearchState, halt: bool)
      requires IndexValid() && C > 0 && InRange(state.current, C)
      ensures (state', halt) == Step(closeCities[..], C, rng, metropolis, state)
      ensures InRange(state'.current, C)
    {
      var neighbor, next := GenerateNeighbor(state.current, rng, state.next);
      var neighborCovered := MarkCovered(neighbor);
      var uncovered := CalculateUncovered(neighborCovered);
      UncoveredIffInfeasible(closeCities[..], C, neighbor, neighborCovered);
      if uncovered > 0 {
        return state.(next := next), false;
      }
      state' := ConsiderNeighbor(state, neighbor, next, rng, metropolis);
      if state.temperature < TemperatureFloor {
        return state', true;
      }
      state' := state'.(temperature := state.temperature * CoolingRate);
      halt := false;
    }

    /**
     * The acceptance step of the annealing loop for a feasible `neighbor`:
     * a strictly smaller neighbour is accepted outright, any other only when
     * the Metropolis test on the draw at `next` passes; an accepted neighbour
     * becomes the current placement, and the best one when smaller than it.
     */
    method ConsiderNeighbor(state: SearchState, neighbor: seq<int>, next: nat, rng: nat -> nat,
                            metropolis: (int, real, nat) -> bool)
      returns (state': SearchState)
      ensures state' == Consider(state, neighbor, next, rng, metropolis)
      ensures |neighbor| < state.currentEnergy ==> state'.current == neighbor && state'.next == next
      ensures state'.current == neighbor || state'.current == state.current
    {
      var neighborEnergy := |neighbor|;
      var accepted := neighborEnergy < state.currentEnergy;
      var after := next;
      if !accepted {
        accepted := metropolis(state.currentEnergy - neighborEnergy, state.temperature, rng(next));
        after := after + 1;
      }
      state' := state.(next := after);
      if accepted {
        state' := state'.(current := neighbor, currentEnergy := neighborEnergy);
        if neighborEnergy < state.bestEnergy {
          state' := state'.(best := neighbor, bestEnergy := neighborEnergy);
        }
      }
    }

    /**
     * The annealing loop of findFrogShops, started from `initial` and run for
     * at most `fuel` iterations: returns the best placement of the run, which
     * is no larger than `initial`, and feasible and free of duplicates when
     * `initial` is.
     */
    method Anneal(initial: seq<int>, rng: nat -> nat, metropolis: (int, real, nat) -> bool, fuel: nat)
      returns (best: seq<int>)
      requires IndexValid() && C > 0 && InRange(initial, C)
      ensures best == Run(closeCities[..], C, rng, metropolis, fuel, Start(initial)).best
      ensures |best| <= |initial| && InRange(best, C)
      ensures Feasible(closeCities[..], C, initial) ==> Feasible(closeCities[..], C, best)
      ensures Distinct(initial) ==> Distinct(best)
    {
      ghost var close := closeCities[..];
      var state := Start(initial);
      var remaining := fuel;
      while remaining > 0
        invariant close == closeCities[..]
        invariant InRange(state.current, C)
        invariant Run(close, C, rng, metropolis, fuel, Start(initial)) == Run(close, C, rng, metropolis, remaining, state)
      {
        var next, halt := Iterate(state, rng, metropolis);
        RunStep(close, C, rng, metropolis, remaining, state, next, halt);
        state := next;
        remaining := remaining - 1;
        if halt {
          break;
        }
      }
      best := state.best;
      RunBest(close, C, rng, metropolis, fuel, initial);
    }

    /**
     * The whole search: builds the distance index of radius `d`, takes the
     * greedy placement `greedy` and returns the best placement of the
     * annealing run started from it, which is feasible, free of duplicates,
     * and no larger than the greedy one.
     */
    method FindFrogShops(d: int, rng: nat -> nat, metropolis: (int, real, nat) -> bool, fuel: nat)
      returns (shops: seq<int>, ghost greedy: seq<int>)
      requires Valid() && C > 0
      modifies closeCities
      ensures Valid()
      ensures IsGreedy(closeCities[..], C, greedy) && forall g :: IsGreedy(closeCities[..], C, g) ==> g == greedy
      ensures shops == Run(closeCities[..], C, rng, metropolis, fuel, Start(greedy)).best
      ensures forall s :: 0 <= s < C ==> AppendedListing(adjacency[..], s, d, old(closeCities[s]), closeCities[s])
      ensures Feasible(closeCities[..], C, shops) && Distinct(shops) && InRange(shops, C)
      ensures forall g :: IsGreedy(closeCities[..], C, g) ==> |shops| <= |g|
      ensures (forall s :: 0 <= s < C ==> old(closeCities[s]) == []) ==>
        Indexed(adjacency[..], closeCities[..], d) && BallCover(adjacency[..], d, shops)
    {
      PreprocessDistances(d);
      var currentSolution := BuildGreedily();
      assert Distinct(currentSolution);
      greedy := currentSolution;
      shops := Anneal(currentSolution, rng, metropolis, fuel);
      forall g | IsGreedy(closeCities[..], C, g)
        ensures g == greedy
      {
        GreedyChoicesUnique(closeCities[..], C, g, greedy);
      }
      if forall s :: 0 <= s < C ==> old(closeCities[s]) == [] {
        forall s | 0 <= s < C
          ensures BallListing(adjacency[..], s, d, closeCities[s])
        {
          assert closeCities[s][|old(closeCities[s])|..] == closeCities[s];
        }
        FeasibleIffBallCover(adjacency[..], closeCities[..], d, shops);
      }
    }
  }
}
