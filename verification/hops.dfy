/**
 * Hop distances in the undirected city graph.
 *
 * A graph is given by its adjacency lists `adj`: `adj[u]` lists the
 * neighbours of city `u`, in the order the edges were added, with a self-loop
 * or a repeated edge listed as often as it was added.
 */
module Hops {

  /** Every city id in the list lies in [0, n). */
  ghost predicate InRange(xs: seq<int>, n: int)
  {
    forall i :: 0 <= i < |xs| ==> 0 <= xs[i] < n
  }

  /** No city id occurs twice in the list. */
  ghost predicate Distinct(xs: seq<int>)
  {
    forall i, j :: 0 <= i < j < |xs| ==> xs[i] != xs[j]
  }

  /** Every entry of every adjacency list names a city of the graph. */
  ghost predicate WellFormed(adj: seq<seq<int>>)
  {
    forall u :: 0 <= u < |adj| ==> InRange(adj[u], |adj|)
  }

  /** Every edge is recorded at both of its ends. */
  ghost predicate Symmetric(adj: seq<seq<int>>)
  {
    forall u, w {:trigger w in adj[u]} :: 0 <= u < |adj| && w in adj[u] ==> 0 <= w < |adj| && u in adj[w]
  }

  /** The cities one edge away from some city of `front`. */
  ghost function Successors(adj: seq<seq<int>>, front: set<int>): set<int>
  {
    set u, w | u in front && 0 <= u < |adj| && w in adj[u] :: w
  }

  /** The cities reachable from `s` by a walk of at most `k` edges. */
  ghost function Ball(adj: seq<seq<int>>, s: int, k: nat): set<int>
  {
    if k == 0 then {s} else Ball(adj, s, k - 1) + Successors(adj, Ball(adj, s, k - 1))
  }

  /** City `v` is at hop distance at most `d` from `s` (never, when `d` is negative). */
  ghost predicate Within(adj: seq<seq<int>>, s: int, v: int, d: int)
  {
    d >= 0 && v in Ball(adj, s, d)
  }

  /**
   * `found` lists, each exactly once, the cities within `d` hops of `s`,
   * starting with `s` itself whenever `d` is non-negative.
   */
  ghost predicate BallListing(adj: seq<seq<int>>, s: int, d: int, found: seq<int>)
  {
    && Distinct(found)
    && (forall v :: v in found <==> Within(adj, s, v, d))
    && (d >= 0 ==> |found| > 0 && found[0] == s)
  }

  /** Balls grow with their radius. */
  lemma {:induction false} BallGrows(adj: seq<seq<int>>, s: int, j: nat, k: nat)
    requires j <= k
    ensures Ball(adj, s, j) <= Ball(adj, s, k)
    decreases k - j
  {
    if j < k {
      BallGrows(adj, s, j, k - 1);
    }
  }

  /** One more edge after a walk of at most `k` edges stays inside the next ball. */
  lemma Extend(adj: seq<seq<int>>, s: int, k: nat, p: int, w: int)
    requires p in Ball(adj, s, k) && 0 <= p < |adj| && w in adj[p]
    ensures w in Ball(adj, s, k + 1)
  {
    assert w in Successors(adj, Ball(adj, s, k));
  }

  /** One edge before a walk of at most `k` edges gives a walk of at most `k + 1` edges. */
  lemma {:induction false} Prepend(adj: seq<seq<int>>, s: int, w: int, k: nat, x: int)
    requires 0 <= s < |adj| && w in adj[s] && x in Ball(adj, w, k)
    ensures x in Ball(adj, s, k + 1)
  {
    if k == 0 {
      Extend(adj, s, 0, s, x);
    } else if x in Ball(adj, w, k - 1) {
      Prepend(adj, s, w, k - 1, x);
      BallGrows(adj, s, k, k + 1);
    } else {
      var p :| p in Ball(adj, w, k - 1) && 0 <= p < |adj| && x in adj[p];
      Prepend(adj, s, w, k - 1, p);
      Extend(adj, s, k, p, x);
    }
  }

  /** In an undirected graph, `x` is within `k` hops of `s` exactly when `s` is within `k` hops of `x`. */
  lemma {:induction false} BallSymmetric(adj: seq<seq<int>>, s: int, x: int, k: nat)
    requires Symmetric(adj) && 0 <= s < |adj| && 0 <= x < |adj|
    ensures x in Ball(adj, s, k) <==> s in Ball(adj, x, k)
  {
    if x in Ball(adj, s, k) {
      BallReversed(adj, s, x, k);
    }
    if s in Ball(adj, x, k) {
      BallReversed(adj, x, s, k);
    }
  }

  lemma {:induction false} BallReversed(adj: seq<seq<int>>, s: int, x: int, k: nat)
    requires Symmetric(adj) && 0 <= s < |adj| && x in Ball(adj, s, k)
    ensures s in Ball(adj, x, k)
    decreases k
  {
    if k == 0 {
    } else if x in Ball(adj, s, k - 1) {
      BallReversed(adj, s, x, k - 1);
      BallGrows(adj, x, k - 1, k);
    } else {
      var p :| p in Ball(adj, s, k - 1) && 0 <= p < |adj| && x in adj[p];
      BallReversed(adj, s, p, k - 1);
      assert 0 <= x < |adj| && p in adj[x];
      Prepend(adj, x, p, k - 1, s);
    }
  }

  /** A city without edges is within any radius of itself and of no other city. */
  lemma {:induction false} IsolatedBall(adj: seq<seq<int>>, s: int, v: int, k: nat)
    requires Symmetric(adj) && 0 <= v < |adj| && adj[v] == []
    ensures v in Ball(adj, s, k) <==> s == v
  {
    if k > 0 {
      IsolatedBall(adj, s, v, k - 1);
      if s == v {
        BallGrows(adj, s, 0, k);
      }
    }
  }

  /**
   * Appending each end of a new edge to the other's list keeps every list
   * in range and every edge recorded at both ends.
   */
  lemma EdgeAdded(adj: seq<seq<int>>, adj': seq<seq<int>>, c1: int, c2: int)
    requires WellFormed(adj) && Symmetric(adj) && 0 <= c1 < |adj| && 0 <= c2 < |adj| && |adj'| == |adj|
    requires forall u :: 0 <= u < |adj| ==>
      adj'[u] == adj[u] + (if u == c1 then [c2] else []) + (if u == c2 then [c1] else [])
    ensures WellFormed(adj') && Symmetric(adj')
  {
    forall u, w | 0 <= u < |adj'| && w in adj'[u]
      ensures 0 <= w < |adj'| && u in adj'[w]
    {
      if w in adj[u] {
        assert u in adj[w];
      }
    }
    forall u | 0 <= u < |adj'|
      ensures InRange(adj'[u], |adj'|)
    {
      forall i | 0 <= i < |adj'[u]|
        ensures 0 <= adj'[u][i] < |adj'|
      {
        assert adj'[u][i] in adj'[u];
      }
    }
  }

  /** The ball of radius 1 holds the city and its neighbours, and nothing else. */
  lemma BallOne(adj: seq<seq<int>>, s: int, v: int)
    ensures v in Ball(adj, s, 1) <==> v == s || (0 <= s < |adj| && v in adj[s])
  {
    if 0 <= s < |adj| && v in adj[s] {
      Extend(adj, s, 0, s, v);
    }
  }

  /** With radius 0 the only listing of a city's ball is the city alone. */
  lemma RadiusZeroListing(adj: seq<seq<int>>, s: int, found: seq<int>)
    requires BallListing(adj, s, 0, found)
    ensures found == [s]
  {
    assert |found| > 1 ==> found[1] != found[0];
    forall i | 0 <= i < |found|
      ensures found[i] == s
    {
      assert found[i] in found;
    }
  }
}
