/**
 * The bookkeeping behind the bounded breadth-first search that builds the
 * distance index: what holds of its queue, its visited marks and the cities
 * it has recorded between any two steps, and why, once the queue is empty,
 * the recorded cities are exactly those within the bound.
 *
 * `hist` is every entry ever queued, a (city, hop count) pair, in queue
 * order; the queue is its suffix from `head` on, and `pos` maps each queued
 * city to its place in `hist`.
 */
module Frontier {
  import opened Hops

  /** `entry` records the exact hop distance of its city from `s`. */
  ghost predicate Exact(adj: seq<seq<int>>, s: int, entry: (int, int))
  {
    && entry.1 >= 0
    && entry.0 in Ball(adj, s, entry.1)
    && (entry.1 > 0 ==> entry.0 !in Ball(adj, s, entry.1 - 1))
  }

  /** `hist` holds each city at most once, and `pos` gives each queued city its place in it. */
  ghost predicate Positions(hist: seq<(int, int)>, pos: map<int, nat>, n: int)
  {
    && (forall v :: v in pos ==> 0 <= v < n && pos[v] < |hist| && hist[pos[v]].0 == v)
    && (forall i :: 0 <= i < |hist| ==> hist[i].0 in pos && pos[hist[i].0] == i)
  }

  /**
   * Every queued hop count is exact and they never decrease along `hist`;
   * the entries still waiting are at most one hop further than the last one
   * taken off the queue.
   */
  ghost predicate Layered(adj: seq<seq<int>>, s: int, hist: seq<(int, int)>, head: int)
  {
    && (forall i :: 0 <= i < |hist| ==> Exact(adj, s, hist[i]))
    && (forall i, j :: 0 <= i <= j < |hist| ==> hist[i].1 <= hist[j].1)
    && (0 < head <= |hist| ==> forall j :: head <= j < |hist| ==> hist[j].1 <= hist[head - 1].1 + 1)
  }

  /** All neighbours of `u` have been queued. */
  ghost predicate Expanded(adj: seq<seq<int>>, pos: map<int, nat>, u: int)
  {
    0 <= u < |adj| && forall w :: w in adj[u] ==> w in pos
  }

  /** Every entry among the first `e` with a hop count within `d` has been expanded. */
  ghost predicate ExpandedBelow(adj: seq<seq<int>>, d: int, hist: seq<(int, int)>, pos: map<int, nat>, e: int)
  {
    forall i :: 0 <= i < e && 0 <= i < |hist| && hist[i].1 <= d ==> Expanded(adj, pos, hist[i].0)
  }

  /** The visited marks are exactly the queued cities, and `unseen` the cities not yet queued. */
  ghost predicate Marked(marks: seq<bool>, pos: map<int, nat>, unseen: set<int>, n: int)
  {
    && |marks| == n
    && (forall v :: 0 <= v < n ==> (marks[v] <==> v in pos))
    && (forall v :: v in unseen <==> 0 <= v < n && v !in pos)
  }

  /** `found` holds the cities taken off the queue so far whose hop count is within `d`. */
  ghost predicate Recorded(d: int, found: seq<int>, hist: seq<(int, int)>, head: int, pos: map<int, nat>)
  {
    forall v :: v in found <==> v in pos && pos[v] < head && pos[v] < |hist| && hist[pos[v]].1 <= d
  }

  /**
   * The state of the search from `s` bounded by `d` between two steps:
   * the queue, the visited marks, the cities recorded so far (`found`), the
   * unvisited cities (`unseen`), and the ghost history behind them.
   */
  ghost predicate Searching(adj: seq<seq<int>>, s: int, d: int, marks: seq<bool>, q: seq<(int, int)>,
                            found: seq<int>, hist: seq<(int, int)>, head: int, pos: map<int, nat>,
                            unseen: set<int>)
  {
    && WellFormed(adj)
    && 0 <= head <= |hist| && q == hist[head..]
    && |hist| > 0 && hist[0] == (s, 0) && (head == 0 ==> |hist| == 1)
    && Positions(hist, pos, |adj|)
    && Marked(marks, pos, unseen, |adj|)
    && Layered(adj, s, hist, head)
    && Distinct(found) && InRange(found, |adj|)
    && Recorded(d, found, hist, head, pos)
    && (head == 0 ==> found == [])
    && (d >= 0 && head > 0 ==> |found| > 0 && found[0] == s)
  }

  /** The search invariant from its parts. */
  lemma SearchingIntro(adj: seq<seq<int>>, s: int, d: int, marks: seq<bool>, q: seq<(int, int)>,
                       found: seq<int>, hist: seq<(int, int)>, head: int, pos: map<int, nat>, unseen: set<int>)
    requires WellFormed(adj)
    requires 0 <= head <= |hist| && q == hist[head..]
    requires |hist| > 0 && hist[0] == (s, 0) && (head == 0 ==> |hist| == 1)
    requires Positions(hist, pos, |adj|)
    requires Marked(marks, pos, unseen, |adj|)
    requires Layered(adj, s, hist, head)
    requires Distinct(found) && InRange(found, |adj|)
    requires Recorded(d, found, hist, head, pos)
    requires head == 0 ==> found == []
    requires d >= 0 && head > 0 ==> |found| > 0 && found[0] == s
    ensures Searching(adj, s, d, marks, q, found, hist, head, pos, unseen)
  {
  }

  /** A recorded exact hop count is the least radius whose ball holds the city. */
  lemma ExactIsLeast(adj: seq<seq<int>>, s: int, entry: (int, int), j: nat)
    requires Exact(adj, s, entry) && entry.0 in Ball(adj, s, j)
    ensures entry.1 <= j
  {
    if entry.1 > j {
      BallGrows(adj, s, j, entry.1 - 1);
    }
  }

  /**
   * When every entry closer than `m` hops among the first `e` has been
   * expanded, and the later entries are at least `m` hops away, every city
   * within `j <= m` hops has been queued, with a hop count of at most `j`.
   */
  lemma {:induction false} Closure(adj: seq<seq<int>>, s: int, hist: seq<(int, int)>, pos: map<int, nat>,
                                   e: nat, m: nat, j: nat, x: int)
    requires |hist| > 0 && hist[0] == (s, 0)
    requires Positions(hist, pos, |adj|)
    requires forall i :: 0 <= i < |hist| ==> Exact(adj, s, hist[i])
    requires e <= |hist| && j <= m
    requires forall i :: 0 <= i < e && hist[i].1 < m ==> Expanded(adj, pos, hist[i].0)
    requires forall i :: e <= i < |hist| ==> hist[i].1 >= m
    ensures x in Ball(adj, s, j) ==> x in pos && hist[pos[x]].1 <= j
    decreases j
  {
    if x in Ball(adj, s, j) {
      if j == 0 {
        assert hist[0].0 in pos && pos[hist[0].0] == 0;
      } else if x in Ball(adj, s, j - 1) {
        Closure(adj, s, hist, pos, e, m, j - 1, x);
      } else {
        var p :| p in Ball(adj, s, j - 1) && 0 <= p < |adj| && x in adj[p];
        Closure(adj, s, hist, pos, e, m, j - 1, p);
        assert hist[pos[p]].0 == p;
        assert Expanded(adj, pos, p);
        ExactIsLeast(adj, s, hist[pos[x]], j);
      }
    }
  }

  /** The state right after `s` is marked and queued with hop count 0. */
  lemma Begin(adj: seq<seq<int>>, s: int, d: int, marks: seq<bool>, unseen: set<int>)
    requires WellFormed(adj) && 0 <= s < |adj| && |marks| == |adj|
    requires forall v :: 0 <= v < |adj| ==> (marks[v] <==> v == s)
    requires forall v :: v in unseen <==> 0 <= v < |adj| && !marks[v]
    ensures Searching(adj, s, d, marks, [(s, 0)], [], [(s, 0)], 0, map[s := 0], unseen)
  {
  }

  /**
   * Taking the first entry off the queue: it is recorded exactly when its
   * hop count is within `d`, and an entry beyond `d` needs no expansion.
   */
  lemma Pop(adj: seq<seq<int>>, s: int, d: int, marks: seq<bool>, q: seq<(int, int)>,
            found: seq<int>, hist: seq<(int, int)>, head: int, pos: map<int, nat>, unseen: set<int>)
    requires Searching(adj, s, d, marks, q, found, hist, head, pos, unseen) && q != []
    ensures hist[head] == q[0] && 0 <= q[0].0 < |adj|
    ensures q[0].1 > d ==> Searching(adj, s, d, marks, q[1..], found, hist, head + 1, pos, unseen)
    ensures q[0].1 <= d ==> Searching(adj, s, d, marks, q[1..], found + [q[0].0], hist, head + 1, pos, unseen)
    ensures q[0].1 > d && ExpandedBelow(adj, d, hist, pos, head) ==> ExpandedBelow(adj, d, hist, pos, head + 1)
  {
    var (u, k) := q[0];
    assert hist[head] == q[0];
    assert pos[u] == head;
    if head > 0 {
      assert forall j :: head + 1 <= j < |hist| ==> hist[j].1 <= hist[head].1 + 1 by {
        forall j | head + 1 <= j < |hist|
          ensures hist[j].1 <= hist[head].1 + 1
        {
          assert hist[j].1 <= hist[head - 1].1 + 1;
          assert hist[head - 1].1 <= hist[head].1;
        }
      }
    }
    if k <= d {
      var found' := found + [u];
      assert u !in found;
      forall i, j | 0 <= i < j < |found'|
        ensures found'[i] != found'[j]
      {
        if j == |found| {
          assert found'[i] in found;
        }
      }
      forall v
        ensures v in found' <==> v in pos && pos[v] < head + 1 && hist[pos[v]].1 <= d
      {
        if v in found' && v != u {
          assert v in found;
        }
      }
      if head == 0 {
        assert u == s && found' == [u];
      }
    }
  }

  /**
   * Queueing an unvisited neighbour `w` of the entry last taken off the
   * queue: its hop count, one more than that entry's, is exact.
   */
  lemma Push(adj: seq<seq<int>>, s: int, d: int, marks: seq<bool>, q: seq<(int, int)>,
             found: seq<int>, hist: seq<(int, int)>, head: int, pos: map<int, nat>, unseen: set<int>, w: int)
    requires Searching(adj, s, d, marks, q, found, hist, head, pos, unseen)
    requires 0 < head && hist[head - 1].1 <= d && ExpandedBelow(adj, d, hist, pos, head - 1)
    requires 0 <= hist[head - 1].0 < |adj| && w in adj[hist[head - 1].0] && w !in pos
    ensures w in unseen && 0 <= w < |adj|
    ensures Searching(adj, s, d, marks[w := true], q + [(w, hist[head - 1].1 + 1)], found,
                      hist + [(w, hist[head - 1].1 + 1)], head, pos[w := |hist|], unseen - {w})
  {
    var entry := (w, hist[head - 1].1 + 1);
    var hist' := hist + [entry];
    var pos' := pos[w := |hist|];
    PushDistance(adj, s, d, hist, head, pos, w);
    PushPositions(hist, pos, |adj|, entry);
    PushMarked(marks, pos, unseen, |adj|, w, |hist|);
    PushFound(d, found, hist, head, pos, |adj|, entry);
    PushQueue(q, hist, head, entry);
    SearchingIntro(adj, s, d, marks[w := true], q + [entry], found, hist', head, pos', unseen - {w});
  }

  /** An entry appended to the history is appended to the queue. */
  lemma PushQueue(q: seq<(int, int)>, hist: seq<(int, int)>, head: int, entry: (int, int))
    requires 0 <= head <= |hist| && q == hist[head..]
    ensures q + [entry] == (hist + [entry])[head..]
  {
  }

  /**
   * A neighbour of the entry being expanded that is not yet queued lies
   * exactly one hop further, so queueing it keeps the history layered.
   */
  lemma PushDistance(adj: seq<seq<int>>, s: int, d: int, hist: seq<(int, int)>, head: int, pos: map<int, nat>, w: int)
    requires WellFormed(adj) && 0 < head <= |hist| && hist[0] == (s, 0)
    requires Positions(hist, pos, |adj|) && Layered(adj, s, hist, head)
    requires hist[head - 1].1 <= d && ExpandedBelow(adj, d, hist, pos, head - 1)
    requires 0 <= hist[head - 1].0 < |adj| && w in adj[hist[head - 1].0] && w !in pos
    ensures 0 <= w < |adj| && Layered(adj, s, hist + [(w, hist[head - 1].1 + 1)], head)
  {
    NotYetReached(adj, s, d, hist, head, pos, w);
    PushExact(adj, s, hist[head - 1], w);
    PushLayered(adj, s, hist, head, (w, hist[head - 1].1 + 1));
  }

  /** Marking and queueing a city not yet queued takes it out of the unseen ones. */
  lemma PushMarked(marks: seq<bool>, pos: map<int, nat>, unseen: set<int>, n: int, w: int, i: nat)
    requires Marked(marks, pos, unseen, n) && 0 <= w < n && w !in pos
    ensures w in unseen && Marked(marks[w := true], pos[w := i], unseen - {w}, n)
  {
  }

  /** Appending an entry for a city not yet queued leaves the cities recorded so far unchanged. */
  lemma PushFound(d: int, found: seq<int>, hist: seq<(int, int)>, head: int, pos: map<int, nat>, n: int,
                  entry: (int, int))
    requires Positions(hist, pos, n) && entry.0 !in pos && head <= |hist|
    requires Recorded(d, found, hist, head, pos)
    ensures Recorded(d, found, hist + [entry], head, pos[entry.0 := |hist|])
  {
    var hist', pos' := hist + [entry], pos[entry.0 := |hist|];
    forall v
      ensures v in found <==> v in pos' && pos'[v] < head && pos'[v] < |hist'| && hist'[pos'[v]].1 <= d
    {
      if v in pos {
        assert hist'[pos'[v]] == hist[pos[v]];
      }
    }
  }

  /** Queueing one more city keeps every expanded entry expanded. */
  lemma PushExpanded(adj: seq<seq<int>>, d: int, hist: seq<(int, int)>, pos: map<int, nat>, e: int, entry: (int, int))
    requires ExpandedBelow(adj, d, hist, pos, e) && e <= |hist|
    ensures ExpandedBelow(adj, d, hist + [entry], pos[entry.0 := |hist|], e)
  {
    var hist', pos' := hist + [entry], pos[entry.0 := |hist|];
    forall i | 0 <= i < e && 0 <= i < |hist'| && hist'[i].1 <= d
      ensures Expanded(adj, pos', hist'[i].0)
    {
      assert hist'[i] == hist[i];
      assert Expanded(adj, pos, hist[i].0);
    }
  }

  /** A neighbour of an exact entry's city that lies outside that entry's ball is exactly one hop further. */
  lemma PushExact(adj: seq<seq<int>>, s: int, from: (int, int), w: int)
    requires WellFormed(adj) && 0 <= from.0 < |adj| && w in adj[from.0]
    requires Exact(adj, s, from) && w !in Ball(adj, s, from.1)
    ensures 0 <= w < |adj| && Exact(adj, s, (w, from.1 + 1))
  {
    assert InRange(adj[from.0], |adj|);
    assert 0 <= w < |adj| by {
      var i :| 0 <= i < |adj[from.0]| && adj[from.0][i] == w;
    }
    Extend(adj, s, from.1, from.0, w);
  }

  /** A city not yet queued is further from `s` than the entry last taken off the queue. */
  lemma NotYetReached(adj: seq<seq<int>>, s: int, d: int, hist: seq<(int, int)>, head: int, pos: map<int, nat>, w: int)
    requires 0 < head <= |hist| && hist[0] == (s, 0)
    requires Positions(hist, pos, |adj|) && Layered(adj, s, hist, head)
    requires hist[head - 1].1 <= d && ExpandedBelow(adj, d, hist, pos, head - 1)
    requires w !in pos
    ensures Exact(adj, s, hist[head - 1]) && w !in Ball(adj, s, hist[head - 1].1)
  {
    var k := hist[head - 1].1;
    assert forall i :: 0 <= i < head - 1 && hist[i].1 < k ==> Expanded(adj, pos, hist[i].0) by {
      forall i | 0 <= i < head - 1 && hist[i].1 < k
        ensures Expanded(adj, pos, hist[i].0)
      {
      }
    }
    assert forall i :: head - 1 <= i < |hist| ==> hist[i].1 >= k by {
      forall i | head - 1 <= i < |hist|
        ensures hist[i].1 >= k
      {
        assert hist[head - 1].1 <= hist[i].1;
      }
    }
    assert k >= 0 by {
      assert Exact(adj, s, hist[head - 1]);
    }
    Closure(adj, s, hist, pos, head - 1, k, k, w);
  }

  /** Appending an exact entry one hop beyond the last one taken off the queue keeps the layering. */
  lemma PushLayered(adj: seq<seq<int>>, s: int, hist: seq<(int, int)>, head: int, entry: (int, int))
    requires Layered(adj, s, hist, head) && 0 < head <= |hist|
    requires Exact(adj, s, entry) && entry.1 == hist[head - 1].1 + 1
    ensures Layered(adj, s, hist + [entry], head)
  {
    var hist' := hist + [entry];
    forall i, j | 0 <= i <= j < |hist'|
      ensures hist'[i].1 <= hist'[j].1
    {
      if j == |hist| && i < |hist| {
        if i < head {
          assert hist[i].1 <= hist[head - 1].1;
        }
      }
    }
  }

  /** Appending an entry for a city not yet queued keeps the positions. */
  lemma PushPositions(hist: seq<(int, int)>, pos: map<int, nat>, n: int, entry: (int, int))
    requires Positions(hist, pos, n) && entry.0 !in pos && 0 <= entry.0 < n
    ensures Positions(hist + [entry], pos[entry.0 := |hist|], n)
  {
    var hist' := hist + [entry];
    forall i | 0 <= i < |hist'|
      ensures hist'[i].0 in pos[entry.0 := |hist|] && pos[entry.0 := |hist|][hist'[i].0] == i
    {
      if i < |hist| {
        assert hist'[i] == hist[i];
      }
    }
  }

  /** Once every neighbour of the entry last taken off the queue is queued, that entry is expanded. */
  lemma Expand(adj: seq<seq<int>>, d: int, hist: seq<(int, int)>, pos: map<int, nat>, head: int)
    requires 0 < head <= |hist| && ExpandedBelow(adj, d, hist, pos, head - 1)
    requires 0 <= hist[head - 1].0 < |adj| && forall w :: w in adj[hist[head - 1].0] ==> w in pos
    ensures ExpandedBelow(adj, d, hist, pos, head)
  {
  }

  /** The first `j` entries of the list `ws` are queued. */
  ghost predicate QueuedUpTo(ws: seq<int>, pos: map<int, nat>, j: int)
  {
    forall k :: 0 <= k < j && k < |ws| ==> ws[k] in pos
  }

  /**
   * The state of the search while the neighbours of the entry last taken
   * off the queue, `hist[head - 1]` for city `u`, are being queued: that
   * entry is within `d`, every earlier one within `d` is expanded, and the
   * first `j` neighbours of `u` are queued.
   */
  ghost predicate Scanning(adj: seq<seq<int>>, s: int, d: int, marks: seq<bool>, q: seq<(int, int)>,
                           found: seq<int>, hist: seq<(int, int)>, head: int, pos: map<int, nat>,
                           unseen: set<int>, u: int, j: int)
  {
    && Searching(adj, s, d, marks, q, found, hist, head, pos, unseen)
    && 0 < head && hist[head - 1].0 == u && hist[head - 1].1 <= d
    && ExpandedBelow(adj, d, hist, pos, head - 1)
    && 0 <= u < |adj| && 0 <= j <= |adj[u]|
    && QueuedUpTo(adj[u], pos, j)
  }

  /** Right after an entry within `d` is taken off the queue, none of its neighbours is yet accounted for. */
  lemma ScanStart(adj: seq<seq<int>>, s: int, d: int, marks: seq<bool>, q: seq<(int, int)>,
                  found: seq<int>, hist: seq<(int, int)>, head: int, pos: map<int, nat>, unseen: set<int>)
    requires Searching(adj, s, d, marks, q, found, hist, head, pos, unseen)
    requires 0 < head && hist[head - 1].1 <= d && ExpandedBelow(adj, d, hist, pos, head - 1)
    ensures Scanning(adj, s, d, marks, q, found, hist, head, pos, unseen, hist[head - 1].0, 0)
  {
    assert hist[head - 1].0 in pos;
  }

  /** The next neighbour names a city, and it is marked exactly when it is queued. */
  lemma ScanTarget(adj: seq<seq<int>>, s: int, d: int, marks: seq<bool>, q: seq<(int, int)>,
                   found: seq<int>, hist: seq<(int, int)>, head: int, pos: map<int, nat>, unseen: set<int>,
                   u: int, j: int)
    requires Scanning(adj, s, d, marks, q, found, hist, head, pos, unseen, u, j) && j < |adj[u]|
    ensures 0 <= adj[u][j] < |marks| && (marks[adj[u][j]] <==> adj[u][j] in pos)
  {
    assert InRange(adj[u], |adj|);
  }

  /** A neighbour already marked needs nothing more. */
  lemma ScanSeen(adj: seq<seq<int>>, s: int, d: int, marks: seq<bool>, q: seq<(int, int)>,
                 found: seq<int>, hist: seq<(int, int)>, head: int, pos: map<int, nat>, unseen: set<int>,
                 u: int, j: int)
    requires Scanning(adj, s, d, marks, q, found, hist, head, pos, unseen, u, j)
    requires j < |adj[u]| && adj[u][j] in pos
    ensures Scanning(adj, s, d, marks, q, found, hist, head, pos, unseen, u, j + 1)
  {
  }

  /**
   * A neighbour `w` not yet marked is marked and queued with a hop count one
   * more than the entry being expanded, and leaves the unseen cities.
   */
  lemma ScanPush(adj: seq<seq<int>>, s: int, d: int, marks: seq<bool>, q: seq<(int, int)>,
                 found: seq<int>, hist: seq<(int, int)>, head: int, pos: map<int, nat>, unseen: set<int>,
                 u: int, j: int, w: int)
    requires Scanning(adj, s, d, marks, q, found, hist, head, pos, unseen, u, j)
    requires j < |adj[u]| && w == adj[u][j] && w !in pos
    ensures w in unseen
    ensures Scanning(adj, s, d, marks[w := true], q + [(w, hist[head - 1].1 + 1)], found,
                     hist + [(w, hist[head - 1].1 + 1)], head, pos[w := |hist|], unseen - {w}, u, j + 1)
  {
    assert w in adj[u];
    Push(adj, s, d, marks, q, found, hist, head, pos, unseen, w);
    PushExpanded(adj, d, hist, pos, head - 1, (w, hist[head - 1].1 + 1));
    var pos' := pos[w := |hist|];
    forall k | 0 <= k < j + 1 && k < |adj[u]|
      ensures adj[u][k] in pos'
    {
      if k < j {
        assert adj[u][k] in pos;
      }
    }
  }

  /**
   * `queue` is `q` followed by entries for neighbours of `u` from
   * `unseen`, each one hop further than `distance`, and the history grew by
   * exactly those entries.
   */
  ghost predicate Extended(adj: seq<seq<int>>, u: int, distance: int, unseen: set<int>, q: seq<(int, int)>,
                           queue: seq<(int, int)>, hist: seq<(int, int)>, hist': seq<(int, int)>)
  {
    && 0 <= u < |adj|
    && |q| <= |queue| && queue[..|q|] == q && hist' == hist + queue[|q|..]
    && forall i :: |q| <= i < |queue| ==> queue[i].1 == distance + 1 && queue[i].0 in adj[u] && queue[i].0 in unseen
  }

  /** Queueing one more unseen neighbour of `u` one hop further keeps the queue and the history extended. */
  lemma ExtendedPush(adj: seq<seq<int>>, u: int, distance: int, unseen: set<int>, q: seq<(int, int)>,
                     queue: seq<(int, int)>, hist: seq<(int, int)>, hist': seq<(int, int)>, w: int)
    requires Extended(adj, u, distance, unseen, q, queue, hist, hist') && w in adj[u] && w in unseen
    ensures Extended(adj, u, distance, unseen, q, queue + [(w, distance + 1)], hist, hist' + [(w, distance + 1)])
  {
    var queue' := queue + [(w, distance + 1)];
    assert queue'[..|q|] == queue[..|q|];
    assert queue'[|q|..] == queue[|q|..] + [(w, distance + 1)];
  }

  /** Once all neighbours are queued, the entry is expanded and the search is between two steps again. */
  lemma ScanDone(adj: seq<seq<int>>, s: int, d: int, marks: seq<bool>, q: seq<(int, int)>,
                 found: seq<int>, hist: seq<(int, int)>, head: int, pos: map<int, nat>, unseen: set<int>,
                 u: int)
    requires 0 <= u < |adj| && Scanning(adj, s, d, marks, q, found, hist, head, pos, unseen, u, |adj[u]|)
    ensures Searching(adj, s, d, marks, q, found, hist, head, pos, unseen)
    ensures ExpandedBelow(adj, d, hist, pos, head)
    ensures forall w :: w in adj[u] ==> 0 <= w < |marks| && marks[w]
  {
    forall w | w in adj[u]
      ensures w in pos
    {
      var k :| 0 <= k < |adj[u]| && adj[u][k] == w;
    }
    Expand(adj, d, hist, pos, head);
  }

  /**
   * With the queue empty and every recorded entry expanded, the recorded
   * cities are exactly those within `d` hops of `s`, each once, `s` first.
   */
  lemma Finish(adj: seq<seq<int>>, s: int, d: int, marks: seq<bool>, found: seq<int>,
               hist: seq<(int, int)>, head: int, pos: map<int, nat>, unseen: set<int>)
    requires Searching(adj, s, d, marks, [], found, hist, head, pos, unseen)
    requires ExpandedBelow(adj, d, hist, pos, head)
    ensures BallListing(adj, s, d, found) && InRange(found, |adj|)
  {
    assert head == |hist|;
    forall v
      ensures v in found <==> Within(adj, s, v, d)
    {
      if v in found {
        assert Exact(adj, s, hist[pos[v]]);
        BallGrows(adj, s, hist[pos[v]].1, d);
      }
      if d >= 0 {
        Closure(adj, s, hist, pos, head, d, d, v);
      }
    }
  }
}
