/**
 * One iteration of the simulated-annealing search for a smaller feasible
 * placement of shops, as a function of the search state.
 *
 * The random generator is the stream `rng`: its i-th output is `rng(i)`, and
 * the state records how many outputs have been drawn. The test
 * `exp(delta / temperature) > U`, with `U` made from one output of the
 * generator, is the oracle `metropolis(delta, temperature, output)`.
 */
module Annealing {
  import opened Hops
  import opened Coverage

  const InitialTemperature: real := 3000.0
  const CoolingRate: real := 0.9999
  /** The search stops once an iteration that reached the cooling step finds the temperature below this. */
  const TemperatureFloor: real := 0.01

  /**
   * The unit move from `current`, drawing from `rng` at `next` on: with a
   * non-empty list, an odd draw removes the entry at the position given by
   * the following draw; otherwise a further draw names a city, which is
   * appended unless already present. Returns the neighbour and the position
   * of the next unused draw.
   */
  function NeighborOf(n: int, current: seq<int>, rng: nat -> nat, next: nat): (seq<int>, nat)
    requires n > 0
  {
    if |current| > 0 && rng(next) % 2 == 1 then
      var k := rng(next + 1) % |current|;
      (current[..k] + current[k + 1..], next + 2)
    else
      var at := if |current| > 0 then next + 1 else next;
      var city := rng(at) % n;
      (if city in current then current else current + [city], at + 1)
  }

  /** `neighbor` is `current` with exactly one position removed. */
  ghost predicate RemovesOne(current: seq<int>, neighbor: seq<int>)
  {
    exists k :: 0 <= k < |current| && neighbor == current[..k] + current[k + 1..]
  }

  /** `neighbor` is `current` with one absent city of [0, n) appended. */
  ghost predicate AddsAbsent(n: int, current: seq<int>, neighbor: seq<int>)
  {
    exists c :: 0 <= c < n && c !in current && neighbor == current + [c]
  }

  lemma DistinctRemove(xs: seq<int>, k: int)
    requires Distinct(xs) && 0 <= k < |xs|
    ensures Distinct(xs[..k] + xs[k + 1..])
  {
    var ys := xs[..k] + xs[k + 1..];
    forall i, j | 0 <= i < j < |ys|
      ensures ys[i] != ys[j]
    {
      var i' := if i < k then i else i + 1;
      var j' := if j < k then j else j + 1;
      assert ys[i] == xs[i'] && ys[j] == xs[j'];
    }
  }

  /**
   * A move removes one position, appends one absent city, or changes
   * nothing; it draws one or two outputs, keeps ids in [0, n) and never
   * introduces a duplicate.
   */
  lemma NeighborMoves(n: int, current: seq<int>, rng: nat -> nat, next: nat)
    requires n > 0
    ensures var (neighbor, after) := NeighborOf(n, current, rng, next);
      && next < after <= next + 2
      && (RemovesOne(current, neighbor) || AddsAbsent(n, current, neighbor) || neighbor == current)
      && (InRange(current, n) ==> InRange(neighbor, n))
      && (Distinct(current) ==> Distinct(neighbor))
  {
    var (neighbor, after) := NeighborOf(n, current, rng, next);
    if |current| > 0 && rng(next) % 2 == 1 {
      var k := rng(next + 1) % |current|;
      assert neighbor == current[..k] + current[k + 1..];
      assert RemovesOne(current, neighbor);
      if Distinct(current) {
        DistinctRemove(current, k);
      }
      if InRange(current, n) {
        forall i | 0 <= i < |neighbor|
          ensures 0 <= neighbor[i] < n
        {
          assert neighbor[i] == current[if i < k then i else i + 1];
        }
      }
    } else {
      var at := if |current| > 0 then next + 1 else next;
      var city := rng(at) % n;
      if city !in current {
        assert neighbor == current + [city];
        assert AddsAbsent(n, current, neighbor);
      }
    }
  }

  /** The variables of the search loop, with `next` the position of the next unused draw. */
  datatype SearchState = SearchState(
    current: seq<int>,
    currentEnergy: int,
    best: seq<int>,
    bestEnergy: int,
    temperature: real,
    next: nat)

  /** The state before the first iteration, starting from the greedy placement `initial`. */
  function Start(initial: seq<int>): SearchState
  {
    SearchState(initial, |initial|, initial, |initial|, InitialTemperature, 0)
  }

  /**
   * A feasible neighbour drawn with the generator at `afterMove`: accepted
   * when strictly smaller than the current placement, or else when the
   * oracle says so (drawing one more output); an accepted neighbour becomes
   * the current placement and, when smaller than the best, the best one.
   */
  function Consider(s: SearchState, neighbor: seq<int>, afterMove: nat, rng: nat -> nat,
                    metropolis: (int, real, nat) -> bool): SearchState
  {
    var neighborEnergy := |neighbor|;
    var improves := neighborEnergy < s.currentEnergy;
    var accepted := improves || metropolis(s.currentEnergy - neighborEnergy, s.temperature, rng(afterMove));
    var afterDraw := if improves then afterMove else afterMove + 1;
    var moved := if accepted then s.(current := neighbor, currentEnergy := neighborEnergy) else s;
    var recorded :=
      if accepted && neighborEnergy < s.bestEnergy then moved.(best := neighbor, bestEnergy := neighborEnergy)
      else moved;
    recorded.(next := afterDraw)
  }

  /**
   * One iteration: the next state, and whether the search stops after it.
   * An infeasible neighbour is discarded with nothing but the draws changed.
   * A feasible one is considered, and then the search stops if the
   * temperature is below the floor, and otherwise cools it.
   */
  ghost function Step(close: seq<seq<int>>, n: int, rng: nat -> nat,
                      metropolis: (int, real, nat) -> bool, s: SearchState): (SearchState, bool)
    requires n > 0
  {
    var (neighbor, afterMove) := NeighborOf(n, s.current, rng, s.next);
    if !Feasible(close, n, neighbor) then
      (s.(next := afterMove), false)
    else
      var considered := Consider(s, neighbor, afterMove, rng, metropolis);
      if s.temperature < TemperatureFloor then
        (considered, true)
      else
        (considered.(temperature := s.temperature * CoolingRate), false)
  }

  /** The state after at most `fuel` iterations, or after the iteration that stops the search. */
  ghost function Run(close: seq<seq<int>>, n: int, rng: nat -> nat,
                     metropolis: (int, real, nat) -> bool, fuel: nat, s: SearchState): SearchState
    requires n > 0
    decreases fuel
  {
    if fuel == 0 then s
    else
      var (t, halt) := Step(close, n, rng, metropolis, s);
      if halt then t else Run(close, n, rng, metropolis, fuel - 1, t)
  }

  /** A run with fuel left takes one step, and goes on from its result unless that step stops the search. */
  lemma RunStep(close: seq<seq<int>>, n: int, rng: nat -> nat,
                metropolis: (int, real, nat) -> bool, fuel: nat, s: SearchState, t: SearchState, halt: bool)
    requires n > 0 && fuel > 0 && (t, halt) == Step(close, n, rng, metropolis, s)
    ensures halt ==> Run(close, n, rng, metropolis, fuel, s) == t
    ensures !halt ==> Run(close, n, rng, metropolis, fuel, s) == Run(close, n, rng, metropolis, fuel - 1, t)
  {
  }

  /** The energies are the sizes of their placements, the best is no larger than the current one, and all ids are cities. */
  ghost predicate Consistent(n: int, s: SearchState)
  {
    && s.currentEnergy == |s.current|
    && s.bestEnergy == |s.best|
    && s.bestEnergy <= s.currentEnergy
    && InRange(s.current, n)
    && InRange(s.best, n)
  }

  /** Both the current and the best placement serve every city. */
  ghost predicate FeasibleState(close: seq<seq<int>>, n: int, s: SearchState)
  {
    Feasible(close, n, s.current) && Feasible(close, n, s.best)
  }

  /** Neither the current nor the best placement holds a city twice. */
  ghost predicate DistinctState(s: SearchState)
  {
    Distinct(s.current) && Distinct(s.best)
  }

  /**
   * An iteration keeps the state consistent, feasible and free of
   * duplicates, and never increases the best energy; the best placement
   * changes only to the new current one, with a strictly smaller energy.
   */
  lemma StepKeeps(close: seq<seq<int>>, n: int, rng: nat -> nat,
                  metropolis: (int, real, nat) -> bool, s: SearchState)
    requires n > 0 && Consistent(n, s)
    ensures var t := Step(close, n, rng, metropolis, s).0;
      && Consistent(n, t)
      && t.bestEnergy <= s.bestEnergy
      && (t.best != s.best ==> t.best == t.current && t.bestEnergy < s.bestEnergy)
      && (FeasibleState(close, n, s) ==> FeasibleState(close, n, t))
      && (DistinctState(s) ==> DistinctState(t))
  {
    NeighborMoves(n, s.current, rng, s.next);
  }

  /** An infeasible neighbour is discarded: only the draw position moves, and the temperature is not cooled. */
  lemma StepDiscardsInfeasible(close: seq<seq<int>>, n: int, rng: nat -> nat,
                               metropolis: (int, real, nat) -> bool, s: SearchState)
    requires n > 0
    requires !Feasible(close, n, NeighborOf(n, s.current, rng, s.next).0)
    ensures Step(close, n, rng, metropolis, s) == (s.(next := NeighborOf(n, s.current, rng, s.next).1), false)
  {
  }

  /** A feasible neighbour strictly smaller than the current placement is always accepted. */
  lemma StepAcceptsImprovement(close: seq<seq<int>>, n: int, rng: nat -> nat,
                               metropolis: (int, real, nat) -> bool, s: SearchState)
    requires n > 0
    requires var neighbor := NeighborOf(n, s.current, rng, s.next).0;
      Feasible(close, n, neighbor) && |neighbor| < s.currentEnergy
    ensures var neighbor := NeighborOf(n, s.current, rng, s.next).0;
      var t := Step(close, n, rng, metropolis, s).0;
      t.current == neighbor && t.currentEnergy == |neighbor|
  {
  }

  /**
   * After a feasible neighbour the floor is tested, strictly, before
   * cooling: the search stops exactly when the temperature is below 0.01,
   * and otherwise the temperature is multiplied by the cooling rate.
   */
  lemma StepCools(close: seq<seq<int>>, n: int, rng: nat -> nat,
                  metropolis: (int, real, nat) -> bool, s: SearchState)
    requires n > 0
    requires Feasible(close, n, NeighborOf(n, s.current, rng, s.next).0)
    ensures var (t, halt) := Step(close, n, rng, metropolis, s);
      && (halt <==> s.temperature < TemperatureFloor)
      && t.temperature == if halt then s.temperature else s.temperature * CoolingRate
  {
  }

  /**
   * However many iterations run, the state stays consistent, the best
   * energy never exceeds its starting value, and feasibility and the
   * absence of duplicates are kept.
   */
  lemma {:induction false} RunKeeps(close: seq<seq<int>>, n: int, rng: nat -> nat,
                                    metropolis: (int, real, nat) -> bool, fuel: nat, s: SearchState)
    requires n > 0 && Consistent(n, s)
    ensures var t := Run(close, n, rng, metropolis, fuel, s);
      && Consistent(n, t)
      && t.bestEnergy <= s.bestEnergy
      && (FeasibleState(close, n, s) ==> FeasibleState(close, n, t))
      && (DistinctState(s) ==> DistinctState(t))
    decreases fuel
  {
    if fuel > 0 {
      StepKeeps(close, n, rng, metropolis, s);
      var (t, halt) := Step(close, n, rng, metropolis, s);
      if !halt {
        RunKeeps(close, n, rng, metropolis, fuel - 1, t);
      }
    }
  }

  /**
   * The best placement of a run started from `initial` is no larger than
   * `initial`, names only cities, and is feasible and free of duplicates
   * whenever `initial` is.
   */
  lemma RunBest(close: seq<seq<int>>, n: int, rng: nat -> nat,
                metropolis: (int, real, nat) -> bool, fuel: nat, initial: seq<int>)
    requires n > 0 && InRange(initial, n)
    ensures var best := Run(close, n, rng, metropolis, fuel, Start(initial)).best;
      && |best| <= |initial|
      && InRange(best, n)
      && (Feasible(close, n, initial) ==> Feasible(close, n, best))
      && (Distinct(initial) ==> Distinct(best))
  {
    RunKeeps(close, n, rng, metropolis, fuel, Start(initial));
  }
}
