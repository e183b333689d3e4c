/**
 * Proof support for the searches that mark a cell visited when it is taken
 * off the frontier and carry the path on each frontier entry (the FIFO
 * breadth-first searches and uniform-cost search).  Each strategy maps its
 * frontier to a sequence of (cell, moves) pairs; the invariant `Layered` over
 * that view, kept by every pop, yields both halves of the searches' contract:
 * the first frontier entry taken at the target has the fewest moves of any
 * free path, and an empty frontier means the target is unreachable.
 */
module Frontier {
  import opened Grid

  /** A frontier entry as the proof sees it: its cell and the number of moves of its path. */
  type Entry = (Cell, nat)

  /** s without its element at index m. */
  function Remove<T>(s: seq<T>, m: nat): (r: seq<T>)
    requires m < |s|
    ensures |r| == |s| - 1
  {
    s[..m] + s[m + 1..]
  }

  lemma RemoveMembers<T>(s: seq<T>, m: nat)
    requires m < |s|
    ensures forall e :: e in Remove(s, m) ==> e in s
    ensures forall e :: e in s && e != s[m] ==> e in Remove(s, m)
  {
    forall e | e in s && e != s[m] ensures e in Remove(s, m) {
      var k :| 0 <= k < |s| && s[k] == e;
      if k < m { assert Remove(s, m)[k] == e; } else { assert Remove(s, m)[k - 1] == e; }
    }
  }

  /** The entries for cells cs, each with t moves. */
  function Tag(cs: seq<Cell>, t: nat): (r: seq<Entry>)
    ensures |r| == |cs|
  {
    seq(|cs|, k requires 0 <= k < |cs| => (cs[k], t))
  }

  lemma TagMembers(cs: seq<Cell>, t: nat)
    ensures forall n :: n in cs ==> (n, t) in Tag(cs, t)
    ensures forall e :: e in Tag(cs, t) ==> e.0 in cs && e.1 == t
  {
    forall n | n in cs ensures (n, t) in Tag(cs, t) {
      var k :| 0 <= k < |cs| && cs[k] == n;
      assert Tag(cs, t)[k] == (n, t);
    }
  }

  /** The entry at index m has no more moves than any other: a frontier pop may take it. */
  predicate IsCheapest(front: seq<Entry>, m: nat)
  {
    m < |front| && forall e :: e in front ==> front[m].1 <= e.1
  }

  /**
   * The search invariant.  `dist` records, for each visited cell, the number of
   * moves of the entry with which it was visited.
   */
  ghost predicate Layered(snake: seq<Cell>, start: Cell, target: Cell, visited: set<Cell>,
                          dist: map<Cell, nat>, front: seq<Entry>)
  {
    && dist.Keys == visited
    // before the first pop the frontier holds only the origin
    && (visited == {} ==> front == [(start, 0)])
    && (visited != {} ==> start in visited && dist[start] == 0)
    // the target is returned, never marked
    && target !in visited
    // cells are visited in order of moves
    && (forall v, e :: v in visited && e in front ==> dist[v] <= e.1)
    // an unvisited free neighbour of a visited cell waits on the frontier, one move further at most
    && (forall v, n :: v in visited && n !in visited && FreeNeighbour(v, n, snake) ==>
          exists e :: e in front && e.0 == n && e.1 <= dist[v] + 1)
    // visited free neighbours were reached at most one move later
    && (forall v, n :: v in visited && n in visited && FreeNeighbour(v, n, snake) ==>
          dist[n] <= dist[v] + 1)
  }

  lemma Initial(snake: seq<Cell>, start: Cell, target: Cell)
    ensures Layered(snake, start, target, {}, map[], [(start, 0)])
  {
  }

  /** Taking an entry whose cell is already visited, and dropping it, keeps the invariant. */
  lemma Skip(snake: seq<Cell>, start: Cell, target: Cell, visited: set<Cell>,
             dist: map<Cell, nat>, front: seq<Entry>, m: nat)
    requires Layered(snake, start, target, visited, dist, front)
    requires IsCheapest(front, m) && front[m].0 in visited
    ensures Layered(snake, start, target, visited, dist, Remove(front, m))
  {
    RemoveMembers(front, m);
  }

  /** Popping the first entry, whose cell is already marked, leaves the rest front' valid. */
  lemma SkipFirst(snake: seq<Cell>, start: Cell, target: Cell, visited: set<Cell>,
                  dist: map<Cell, nat>, front: seq<Entry>, front': seq<Entry>)
    requires Layered(snake, start, target, visited, dist, front)
    requires IsCheapest(front, 0) && front[0].0 in visited && front' == front[1..]
    ensures Layered(snake, start, target, visited, dist, front')
  {
    Skip(snake, start, target, visited, dist, front, 0);
    LayeredSame(snake, start, target, visited, dist, Remove(front, 0), visited, dist, front');
  }

  /** The invariant holds of equal arguments; stated once so that callers rewrite outside of it. */
  lemma LayeredSame(snake: seq<Cell>, start: Cell, target: Cell,
                    visited: set<Cell>, dist: map<Cell, nat>, front: seq<Entry>,
                    visited': set<Cell>, dist': map<Cell, nat>, front': seq<Entry>)
    requires Layered(snake, start, target, visited, dist, front)
    requires visited == visited' && dist == dist' && front == front'
    ensures Layered(snake, start, target, visited', dist', front')
  {
  }

  /** The conditions under which `Expand` applies. */
  ghost predicate ExpandsCheapest(snake: seq<Cell>, start: Cell, target: Cell, visited: set<Cell>,
                                  dist: map<Cell, nat>, front: seq<Entry>, m: nat, c: Cell, t: nat,
                                  pushed: seq<Cell>)
  {
    && Layered(snake, start, target, visited, dist, front)
    && IsCheapest(front, m) && front[m] == (c, t) && c !in visited && c != target
    && (forall n :: n in pushed ==> FreeNeighbour(c, n, snake))
    && (forall n :: FreeNeighbour(c, n, snake) && n !in visited + {c} ==> n in pushed)
  }

  /**
   * Taking the cheapest entry, at an unvisited cell other than the target,
   * marking its cell and pushing (at least) all of its free neighbours not yet
   * visited, one move further, keeps the invariant.
   */
  lemma Expand(snake: seq<Cell>, start: Cell, target: Cell, visited: set<Cell>,
               dist: map<Cell, nat>, front: seq<Entry>, m: nat, c: Cell, t: nat,
               pushed: seq<Cell>, front': seq<Entry>)
    requires Layered(snake, start, target, visited, dist, front)
    requires IsCheapest(front, m) && front[m] == (c, t) && c !in visited && c != target
    requires forall n :: n in pushed ==> FreeNeighbour(c, n, snake)
    requires forall n :: FreeNeighbour(c, n, snake) && n !in visited + {c} ==> n in pushed
    requires front' == Remove(front, m) + Tag(pushed, t + 1)
    ensures Layered(snake, start, target, visited + {c}, dist[c := t], front')
  {
    if visited == {} {
      assert c == start && t == 0;
    }
    ExpandOrder(snake, start, target, visited, dist, front, m, c, t, pushed);
    ExpandWaiting(snake, start, target, visited, dist, front, m, c, t, pushed);
    ExpandReached(snake, start, target, visited, dist, front, m, c, t, pushed);
  }

  lemma ExpandOrder(snake: seq<Cell>, start: Cell, target: Cell, visited: set<Cell>,
                    dist: map<Cell, nat>, front: seq<Entry>, m: nat, c: Cell, t: nat,
                    pushed: seq<Cell>)
    requires ExpandsCheapest(snake, start, target, visited, dist, front, m, c, t, pushed)
    ensures forall v, e :: v in visited + {c} && e in Remove(front, m) + Tag(pushed, t + 1) ==>
      dist[c := t][v] <= e.1
  {
    RemoveMembers(front, m);
    TagMembers(pushed, t + 1);
    assert front[m] in front;
  }

  lemma ExpandWaiting(snake: seq<Cell>, start: Cell, target: Cell, visited: set<Cell>,
                      dist: map<Cell, nat>, front: seq<Entry>, m: nat, c: Cell, t: nat,
                      pushed: seq<Cell>)
    requires ExpandsCheapest(snake, start, target, visited, dist, front, m, c, t, pushed)
    ensures forall v, n :: v in visited + {c} && n !in visited + {c} && FreeNeighbour(v, n, snake) ==>
      exists e :: e in Remove(front, m) + Tag(pushed, t + 1) && e.0 == n && e.1 <= dist[c := t][v] + 1
  {
    var visited', dist' := visited + {c}, dist[c := t];
    var front' := Remove(front, m) + Tag(pushed, t + 1);
    RemoveMembers(front, m);
    TagMembers(pushed, t + 1);
    assert forall e :: e in front && e != front[m] ==> e in front';
    forall v, n | v in visited' && n !in visited' && FreeNeighbour(v, n, snake)
      ensures exists e :: e in front' && e.0 == n && e.1 <= dist'[v] + 1
    {
      if v == c {
        assert (n, t + 1) in front';
      } else {
        StillWaiting(snake, start, target, visited, dist, front, m, front', v, n);
      }
    }
  }

  /** An entry that waited for n, a neighbour of an earlier visited cell v, survives the pop. */
  lemma StillWaiting(snake: seq<Cell>, start: Cell, target: Cell, visited: set<Cell>,
                     dist: map<Cell, nat>, front: seq<Entry>, m: nat, front': seq<Entry>, v: Cell, n: Cell)
    requires Layered(snake, start, target, visited, dist, front) && m < |front|
    requires forall e :: e in front && e != front[m] ==> e in front'
    requires v in visited && n !in visited && n != front[m].0 && FreeNeighbour(v, n, snake)
    ensures exists e :: e in front' && e.0 == n && e.1 <= dist[v] + 1
  {
    var e :| e in front && e.0 == n && e.1 <= dist[v] + 1;
    assert e in front';
  }

  lemma ExpandReached(snake: seq<Cell>, start: Cell, target: Cell, visited: set<Cell>,
                      dist: map<Cell, nat>, front: seq<Entry>, m: nat, c: Cell, t: nat,
                      pushed: seq<Cell>)
    requires ExpandsCheapest(snake, start, target, visited, dist, front, m, c, t, pushed)
    ensures forall v, n :: v in visited + {c} && n in visited + {c} && FreeNeighbour(v, n, snake) ==>
      dist[c := t][n] <= dist[c := t][v] + 1
  {
    var visited', dist' := visited + {c}, dist[c := t];
    assert front[m] in front;
    forall v, n | v in visited' && n in visited' && FreeNeighbour(v, n, snake)
      ensures dist'[n] <= dist'[v] + 1
    {
      if n == c && v != c {
        var e :| e in front && e.0 == c && e.1 <= dist[v] + 1;
      }
    }
  }

  lemma {:induction false} WalkVisited(snake: seq<Cell>, start: Cell, target: Cell, visited: set<Cell>,
                                       dist: map<Cell, nat>, front: seq<Entry>, q: seq<Cell>, i: nat)
    requires Layered(snake, start, target, visited, dist, front) && visited != {}
    requires IsFreePath(q, snake) && q[0] == start && i < |q|
    requires forall j :: 0 <= j <= i ==> q[j] in visited
    ensures dist[q[i]] <= i
    decreases i
  {
    if i > 0 {
      WalkVisited(snake, start, target, visited, dist, front, q, i - 1);
      assert FreeNeighbour(q[i - 1], q[i], snake);
    }
  }

  /** Along any free path to the target, some frontier entry has no more moves than the path. */
  lemma {:induction false} CheapEntryOnPath(snake: seq<Cell>, start: Cell, target: Cell, visited: set<Cell>,
                                            dist: map<Cell, nat>, front: seq<Entry>, q: seq<Cell>, i: nat)
    requires Layered(snake, start, target, visited, dist, front) && visited != {}
    requires PathFromTo(q, start, target, snake) && i < |q|
    requires forall j :: 0 <= j <= i ==> q[j] in visited
    ensures exists e :: e in front && e.1 <= |q| - 1
    decreases |q| - i
  {
    WalkVisited(snake, start, target, visited, dist, front, q, i);
    assert i < |q| - 1;
    if q[i + 1] in visited {
      CheapEntryOnPath(snake, start, target, visited, dist, front, q, i + 1);
    } else {
      assert FreeNeighbour(q[i], q[i + 1], snake);
    }
  }

  /** The cheapest entry, when it is at the target, has the fewest moves of any free path. */
  lemma FoundIsShortest(snake: seq<Cell>, start: Cell, target: Cell, visited: set<Cell>,
                        dist: map<Cell, nat>, front: seq<Entry>, m: nat, q: seq<Cell>)
    requires Layered(snake, start, target, visited, dist, front)
    requires IsCheapest(front, m) && front[m].0 == target
    requires PathFromTo(q, start, target, snake)
    ensures front[m].1 <= |q| - 1
  {
    if visited != {} {
      CheapEntryOnPath(snake, start, target, visited, dist, front, q, 0);
    }
  }

  lemma {:induction false} AllVisited(snake: seq<Cell>, start: Cell, target: Cell, visited: set<Cell>,
                                      dist: map<Cell, nat>, q: seq<Cell>, i: nat)
    requires Layered(snake, start, target, visited, dist, [])
    requires IsFreePath(q, snake) && q[0] == start && i < |q|
    ensures q[i] in visited
    decreases i
  {
    if i > 0 {
      AllVisited(snake, start, target, visited, dist, q, i - 1);
      assert FreeNeighbour(q[i - 1], q[i], snake);
    }
  }

  /** An exhausted frontier means no free path leads to the target. */
  lemma Exhausted(snake: seq<Cell>, start: Cell, target: Cell, visited: set<Cell>, dist: map<Cell, nat>)
    requires Layered(snake, start, target, visited, dist, [])
    ensures !Reachable(start, target, snake)
  {
    forall q | PathFromTo(q, start, target, snake) ensures q[|q| - 1] in visited {
      AllVisited(snake, start, target, visited, dist, q, |q| - 1);
    }
  }
}
