/**
 * Coverage of the cities by a set of shops, judged against a distance index
 * `close`, where `close[s]` lists the cities a shop at `s` serves.
 */
module Coverage {
  import opened Hops

  /** A shop serves its own city and every city of its index entry. */
  ghost predicate Reaches(close: seq<seq<int>>, shop: int, v: int)
  {
    v == shop || (0 <= shop < |close| && v in close[shop])
  }

  /** Some shop of `sol` serves city `v`. */
  ghost predicate Covered(close: seq<seq<int>>, sol: seq<int>, v: int)
  {
    exists shop :: shop in sol && Reaches(close, shop, v)
  }

  /** Every city in [0, n) is served: the solution is a valid placement of shops. */
  ghost predicate Feasible(close: seq<seq<int>>, n: int, sol: seq<int>)
  {
    forall v :: 0 <= v < n ==> Covered(close, sol, v)
  }

  /** The number of `false` entries of a coverage vector. */
  function CountFalse(marks: seq<bool>): nat
  {
    if marks == [] then 0
    else CountFalse(marks[..|marks| - 1]) + (if marks[|marks| - 1] then 0 else 1)
  }

  /** The count lies in [0, |marks|] and is 0 exactly when every entry is `true`. */
  lemma {:induction false} CountFalseBounds(marks: seq<bool>)
    ensures CountFalse(marks) <= |marks|
    ensures CountFalse(marks) == 0 <==> forall i :: 0 <= i < |marks| ==> marks[i]
  {
    if marks != [] {
      var init := marks[..|marks| - 1];
      CountFalseBounds(init);
      assert forall i :: 0 <= i < |init| ==> init[i] == marks[i];
    }
  }

  /**
   * A count of the `false` entries of a coverage vector of `sol` is positive
   * exactly when `sol` is not feasible.
   */
  lemma UncoveredIffInfeasible(close: seq<seq<int>>, n: int, sol: seq<int>, covered: seq<bool>)
    requires |covered| == n
    requires forall v :: 0 <= v < n ==> (covered[v] <==> Covered(close, sol, v))
    ensures CountFalse(covered) > 0 <==> !Feasible(close, n, sol)
  {
    CountFalseBounds(covered);
  }

  /** City `v` is in the index entry of `shop`. */
  ghost predicate IndexCovers(close: seq<seq<int>>, shop: int, v: int)
  {
    0 <= shop < |close| && v in close[shop]
  }

  /** City `v` is in the index entry of some shop of `sol`. */
  ghost predicate IndexCovered(close: seq<seq<int>>, sol: seq<int>, v: int)
  {
    exists shop :: shop in sol && IndexCovers(close, shop, v)
  }

  /** City `v` is in the index entry of some shop of `sol` with a smaller id. */
  ghost predicate CoveredEarlier(close: seq<seq<int>>, sol: seq<int>, v: int)
  {
    exists shop :: shop in sol && shop < v && IndexCovers(close, shop, v)
  }

  ghost predicate StrictlyIncreasing(xs: seq<int>)
  {
    forall i, j :: 0 <= i < j < |xs| ==> xs[i] < xs[j]
  }

  /**
   * The choices of the greedy scan over the cities 0, 1, ..., n - 1: a city
   * becomes a shop exactly when no shop with a smaller id has it in its
   * index entry.
   */
  ghost predicate GreedyChoices(close: seq<seq<int>>, n: int, sol: seq<int>)
  {
    forall v :: 0 <= v < n ==> (v in sol <==> !CoveredEarlier(close, sol, v))
  }

  /** The greedy choices always serve every city. */
  lemma GreedyChoicesFeasible(close: seq<seq<int>>, n: int, sol: seq<int>)
    requires GreedyChoices(close, n, sol)
    ensures Feasible(close, n, sol)
  {
    forall v | 0 <= v < n
      ensures Covered(close, sol, v)
    {
      if v !in sol {
        var shop :| shop in sol && shop < v && IndexCovers(close, shop, v);
        assert Reaches(close, shop, v);
      } else {
        assert Reaches(close, v, v);
      }
    }
  }

  /**
   * When every city is in its own index entry, the greedy choices put every
   * city in the index entry of some chosen shop.
   */
  lemma GreedyChoicesIndexCoverAll(close: seq<seq<int>>, n: int, sol: seq<int>)
    requires GreedyChoices(close, n, sol)
    requires forall v :: 0 <= v < n ==> IndexCovers(close, v, v)
    ensures forall v :: 0 <= v < n ==> IndexCovered(close, sol, v)
  {
    forall v | 0 <= v < n
      ensures IndexCovered(close, sol, v)
    {
      if v in sol {
        assert IndexCovers(close, v, v);
      }
    }
  }

  /** The greedy choices are unique: the shops below `m` are the same in any two lists that obey them. */
  lemma {:induction false} GreedyChoicesAgreeBelow(close: seq<seq<int>>, n: int, a: seq<int>, b: seq<int>, m: int)
    requires GreedyChoices(close, n, a) && GreedyChoices(close, n, b)
    requires InRange(a, n) && InRange(b, n) && 0 <= m <= n
    ensures forall v :: 0 <= v < m ==> (v in a <==> v in b)
    decreases m
  {
    if m > 0 {
      GreedyChoicesAgreeBelow(close, n, a, b, m - 1);
      var v := m - 1;
      if CoveredEarlier(close, a, v) {
        var shop :| shop in a && shop < v && IndexCovers(close, shop, v);
        assert 0 <= shop by {
          var i :| 0 <= i < |a| && a[i] == shop;
        }
        assert shop in b;
      }
      if CoveredEarlier(close, b, v) {
        var shop :| shop in b && shop < v && IndexCovers(close, shop, v);
        assert 0 <= shop by {
          var i :| 0 <= i < |b| && b[i] == shop;
        }
        assert shop in a;
      }
    }
  }

  /** Two strictly increasing lists with the same elements are equal. */
  lemma {:induction false} IncreasingSameElements(a: seq<int>, b: seq<int>)
    requires StrictlyIncreasing(a) && StrictlyIncreasing(b)
    requires forall x :: x in a <==> x in b
    ensures a == b
    decreases |a|
  {
    assert a != [] ==> a[0] in a;
    assert b != [] ==> b[0] in b;
    if a != [] && b != [] {
      assert a[0] == b[0] by {
        assert a[0] in b && b[0] in a;
      }
      forall x
        ensures x in a[1..] <==> x in b[1..]
      {
        if x in a[1..] {
          TailMember(a, x);
          TailMemberBack(b, x);
        }
        if x in b[1..] {
          TailMember(b, x);
          TailMemberBack(a, x);
        }
      }
      IncreasingSameElements(a[1..], b[1..]);
      assert a == [a[0]] + a[1..] && b == [b[0]] + b[1..];
    }
  }

  lemma TailMember(xs: seq<int>, x: int)
    requires StrictlyIncreasing(xs) && |xs| > 0 && x in xs[1..]
    ensures x in xs && x != xs[0]
  {
    var i :| 0 <= i < |xs| - 1 && xs[1..][i] == x;
    assert xs[i + 1] == x;
  }

  lemma TailMemberBack(xs: seq<int>, x: int)
    requires StrictlyIncreasing(xs) && x in xs && x != xs[0]
    ensures x in xs[1..]
  {
    var i :| 0 <= i < |xs| && xs[i] == x;
    assert xs[1..][i - 1] == x;
  }

  /** The greedy choices determine the list: only one strictly increasing list of cities obeys them. */
  lemma GreedyChoicesUnique(close: seq<seq<int>>, n: int, a: seq<int>, b: seq<int>)
    requires 0 <= n
    requires GreedyChoices(close, n, a) && GreedyChoices(close, n, b)
    requires InRange(a, n) && InRange(b, n)
    requires StrictlyIncreasing(a) && StrictlyIncreasing(b)
    ensures a == b
  {
    GreedyChoicesAgreeBelow(close, n, a, b, n);
    forall x
      ensures x in a <==> x in b
    {
      if x in a {
        var i :| 0 <= i < |a| && a[i] == x;
      }
      if x in b {
        var i :| 0 <= i < |b| && b[i] == x;
      }
    }
    IncreasingSameElements(a, b);
  }

  /** `close` is the distance index of radius `d` of the graph `adj`. */
  ghost predicate Indexed(adj: seq<seq<int>>, close: seq<seq<int>>, d: int)
  {
    |close| == |adj| && forall s :: 0 <= s < |adj| ==> BallListing(adj, s, d, close[s])
  }

  /** Every city is a shop or lies within `d` hops of one. */
  ghost predicate BallCover(adj: seq<seq<int>>, d: int, sol: seq<int>)
  {
    forall v :: 0 <= v < |adj| ==> v in sol || exists shop :: shop in sol && Within(adj, shop, v, d)
  }

  /** Against the index of radius `d`, feasibility is exactly covering the graph with radius-`d` balls. */
  lemma FeasibleIffBallCover(adj: seq<seq<int>>, close: seq<seq<int>>, d: int, sol: seq<int>)
    requires Indexed(adj, close, d) && InRange(sol, |adj|)
    ensures Feasible(close, |adj|, sol) <==> BallCover(adj, d, sol)
  {
    if Feasible(close, |adj|, sol) {
      forall v | 0 <= v < |adj|
        ensures v in sol || exists shop :: shop in sol && Within(adj, shop, v, d)
      {
        assert Covered(close, sol, v);
        var shop :| shop in sol && Reaches(close, shop, v);
        if v != shop {
          assert v in close[shop];
        }
      }
    }
    if BallCover(adj, d, sol) {
      forall v | 0 <= v < |adj|
        ensures Covered(close, sol, v)
      {
        if v in sol {
          assert Reaches(close, v, v);
        } else {
          var shop :| shop in sol && Within(adj, shop, v, d);
          var i :| 0 <= i < |sol| && sol[i] == shop;
          assert v in close[shop];
          assert Reaches(close, shop, v);
        }
      }
    }
  }

  /** In an undirected graph the index is symmetric: `u` is in the entry of `s` exactly when `s` is in the entry of `u`. */
  lemma IndexSymmetric(adj: seq<seq<int>>, close: seq<seq<int>>, d: int, s: int, u: int)
    requires Indexed(adj, close, d) && Symmetric(adj)
    requires 0 <= s < |adj| && 0 <= u < |adj|
    ensures u in close[s] <==> s in close[u]
  {
    if d >= 0 {
      BallSymmetric(adj, s, u, d);
    }
  }

  /** A city without edges belongs to every feasible solution: no other shop can serve it. */
  lemma IsolatedCityInEveryFeasible(adj: seq<seq<int>>, close: seq<seq<int>>, d: int, v: int, sol: seq<int>)
    requires Indexed(adj, close, d) && Symmetric(adj) && InRange(sol, |adj|)
    requires 0 <= v < |adj| && adj[v] == []
    requires Feasible(close, |adj|, sol)
    ensures v in sol
  {
    assert Covered(close, sol, v);
    var shop :| shop in sol && Reaches(close, shop, v);
    if v != shop {
      var i :| 0 <= i < |sol| && sol[i] == shop;
      assert Within(adj, shop, v, d);
      IsolatedBall(adj, shop, v, d);
    }
  }

  /** With radius 0 every index entry is its own city alone. */
  lemma RadiusZeroIndex(adj: seq<seq<int>>, close: seq<seq<int>>)
    requires Indexed(adj, close, 0)
    ensures forall s :: 0 <= s < |adj| ==> close[s] == [s]
  {
    forall s | 0 <= s < |adj|
      ensures close[s] == [s]
    {
      RadiusZeroListing(adj, s, close[s]);
    }
  }

  /** With radius 0 the only feasible solutions hold every city. */
  lemma RadiusZeroNeedsAll(adj: seq<seq<int>>, close: seq<seq<int>>, sol: seq<int>)
    requires Indexed(adj, close, 0) && InRange(sol, |adj|)
    requires Feasible(close, |adj|, sol)
    ensures forall v :: 0 <= v < |adj| ==> v in sol
  {
    RadiusZeroIndex(adj, close);
    forall v | 0 <= v < |adj|
      ensures v in sol
    {
      assert Covered(close, sol, v);
      var shop :| shop in sol && Reaches(close, shop, v);
      var i :| 0 <= i < |sol| && sol[i] == shop;
      assert close[shop] == [shop];
    }
  }
}
