/**
 * A* search over the board: a binary heap of (f-score, position) entries, a
 * map of best known move counts g, a map of predecessors, and a set of cells
 * marked when popped.  With the Manhattan heuristic, which never overestimates
 * and changes by at most one per move, the path rebuilt from the predecessor
 * map is a shortest free path, and None is returned exactly when the food
 * cannot be reached.
 */
module AStarSearch {
  import opened Wrappers
  import opened Grid
  import Frontier

  /** A heap entry: (f-score, position). */
  type HeapEntry = (nat, Cell)

  /** Python's tuple order on heap entries. */
  predicate Before(a: HeapEntry, b: HeapEntry)
  {
    a.0 < b.0 || (a.0 == b.0 && CellBefore(a.1, b.1))
  }

  /** The index of the entry `heapq.heappop` removes: one that no other entry comes before. */
  function HeapMin(open: seq<HeapEntry>): (m: nat)
    requires open != []
    ensures m < |open| && forall k :: 0 <= k < |open| ==> !Before(open[k], open[m])
  {
    if |open| == 1 then 0
    else
      var m' := HeapMin(open[..|open| - 1]);
      assert forall k :: 0 <= k < |open| - 1 ==> open[k] == open[..|open| - 1][k];
      if Before(open[|open| - 1], open[m']) then |open| - 1 else m'
  }

  /** The popped entry has the least f-score of the heap. */
  lemma HeapMinIsLeast(open: seq<HeapEntry>, e: HeapEntry)
    requires open != [] && e in open
    ensures open[HeapMin(open)].0 <= e.0
  {
    var k :| 0 <= k < |open| && open[k] == e;
    assert !Before(open[k], open[HeapMin(open)]);
  }

  /** The search state the loop updates. */
  datatype Search = Search(open: seq<HeapEntry>, g: map<Cell, nat>, cameFrom: map<Cell, Cell>)

  /** The state after the neighbour n of c is improved to score t. */
  function Improved(s: Search, c: Cell, n: Cell, t: nat, target: Cell): Search
  {
    Search(s.open + [(t + Heuristic(n, target), n)], s.g[n := t], s.cameFrom[n := c])
  }

  /**
   * One iteration of the neighbour loop: when the neighbour of c along d is on
   * the board and off the body, and one more move than g[c] improves on its
   * recorded score (or it has none), record that score, push the entry with
   * f-score g + heuristic, and record c as its predecessor.
   */
  function RelaxDir(s: Search, c: Cell, target: Cell, snake: seq<Cell>, d: Cell): (r: Search)
    requires c in s.g && d in Directions
    ensures c in r.g && r.g[c] == s.g[c]
    ensures s.g.Keys <= r.g.Keys
  {
    var n := Step(c, d);
    if InBounds(n) && n !in snake then
      var t := s.g[c] + 1;
      if n !in s.g || t < s.g[n] then Improved(s, c, n, t, target) else s
    else s
  }

  /** The first k iterations of the neighbour loop. */
  function Relax(s: Search, c: Cell, target: Cell, snake: seq<Cell>, k: nat): (r: Search)
    requires c in s.g && k <= 4
    ensures c in r.g && r.g[c] == s.g[c]
    ensures s.g.Keys <= r.g.Keys
  {
    if k == 0 then s
    else RelaxDir(Relax(s, c, target, snake, k - 1), c, target, snake, Directions[k - 1])
  }

  /**
   * The neighbour loop only ever lowers recorded scores, and it rewrites a
   * predecessor only together with a strictly better score for that cell.
   */
  lemma {:induction false} RelaxOnlyLowers(s: Search, c: Cell, target: Cell, snake: seq<Cell>, k: nat)
    requires c in s.g && k <= 4
    ensures var r := Relax(s, c, target, snake, k);
      && (forall n :: n in s.g ==> r.g[n] <= s.g[n])
      && (forall n :: n in r.cameFrom && (n !in s.cameFrom || r.cameFrom[n] != s.cameFrom[n]) ==>
            n in r.g && (n !in s.g || r.g[n] < s.g[n]))
  {
    if k > 0 {
      RelaxOnlyLowers(s, c, target, snake, k - 1);
    }
  }

  // ------------------------------------------------------------------
  // Invariants

  /** Every recorded predecessor is marked, one move cheaper, and a free neighbour. */
  ghost predicate Links(snake: seq<Cell>, start: Cell, s: Search, visited: set<Cell>)
  {
    && start in s.g && s.g[start] == 0
    && s.cameFrom.Keys == s.g.Keys - {start}
    && visited <= s.g.Keys
    && (forall n {:trigger s.cameFrom[n]} :: n in s.cameFrom ==>
          s.cameFrom[n] in visited && s.g[s.cameFrom[n]] + 1 == s.g[n] && FreeNeighbour(s.cameFrom[n], n, snake))
  }

  /** Every heap entry is for a scored board cell, and is scored no lower than g plus heuristic. */
  ghost predicate Estimates(target: Cell, universe: set<Cell>, s: Search)
  {
    forall e :: e in s.open ==> e.1 in s.g && e.1 in universe && s.g[e.1] + Heuristic(e.1, target) <= e.0
  }

  /** No heap entry is scored below the bound, the score of the cell last expanded. */
  ghost predicate Above(s: Search, bound: nat)
  {
    forall e :: e in s.open ==> bound <= e.0
  }

  /** Every scored, unmarked cell has its current entry in the heap. */
  ghost predicate Waiting(target: Cell, s: Search, visited: set<Cell>)
  {
    forall n :: n in s.g && n !in visited ==> (s.g[n] + Heuristic(n, target), n) in s.open
  }

  /** Every marked cell was scored within the bound. */
  ghost predicate Within(target: Cell, s: Search, visited: set<Cell>, bound: nat)
  {
    forall v :: v in visited && v in s.g ==> s.g[v] + Heuristic(v, target) <= bound
  }

  /** Every free neighbour of a marked cell is scored at most one move above it. */
  ghost predicate Settled(snake: seq<Cell>, s: Search, visited: set<Cell>)
  {
    forall v, n :: v in visited && v in s.g && FreeNeighbour(v, n, snake) ==> n in s.g && s.g[n] <= s.g[v] + 1
  }

  /** The invariant once the start has been expanded. */
  ghost predicate Core(snake: seq<Cell>, start: Cell, target: Cell, universe: set<Cell>,
                       s: Search, visited: set<Cell>, bound: nat)
  {
    && Links(snake, start, s, visited)
    && visited <= universe
    && target !in visited
    && Estimates(target, universe, s)
    && Above(s, bound)
    && Waiting(target, s, visited)
    && Within(target, s, visited, bound)
  }

  /** The initial state: the start alone in the heap, at f-score 0. */
  function Initial(start: Cell): Search
  {
    Search([(0, start)], map[start := 0], map[])
  }

  /** The invariant once the start has been expanded. */
  ghost predicate Running(snake: seq<Cell>, start: Cell, target: Cell, universe: set<Cell>,
                          s: Search, visited: set<Cell>, bound: nat)
  {
    start in visited && Core(snake, start, target, universe, s, visited, bound) && Settled(snake, s, visited)
  }

  /** The loop invariant of `AStar`: the initial state, or a running search. */
  ghost predicate AStarInv(snake: seq<Cell>, start: Cell, target: Cell, universe: set<Cell>,
                           s: Search, visited: set<Cell>, bound: nat)
  {
    && (visited == {} ==> s == Initial(start) && start in universe)
    && (visited != {} ==> Running(snake, start, target, universe, s, visited, bound))
  }

  /** The neighbour loop of c is looking at direction k: the first k are settled. */
  ghost predicate SettledUpTo(snake: seq<Cell>, s: Search, c: Cell, k: nat)
    requires k <= 4
  {
    c in s.g &&
    forall j :: 0 <= j < k && Free(Step(c, Directions[j]), snake) ==>
      Step(c, Directions[j]) in s.g && s.g[Step(c, Directions[j])] <= s.g[c] + 1
  }

  /** The invariant part-way through the neighbour loop of c, after k directions. */
  ghost predicate Relaxing(snake: seq<Cell>, start: Cell, target: Cell, universe: set<Cell>,
                           s: Search, visited: set<Cell>, c: Cell, bound: nat, k: nat)
  {
    && k <= 4
    && start in snake
    && universe == BoardCells() + {start}
    && start in visited + {c}
    && Core(snake, start, target, universe, s, visited + {c}, bound)
    && Settled(snake, s, visited)
    && c in s.g && s.g[c] + Heuristic(c, target) == bound
    && SettledUpTo(snake, s, c, k)
  }

  // ------------------------------------------------------------------
  // Transitions

  lemma AStarInitial(snake: seq<Cell>, start: Cell, target: Cell)
    ensures AStarInv(snake, start, target, BoardCells() + {start}, Initial(start), {}, 0)
  {
  }

  /** Entry m has the least f-score of the heap. */
  predicate IsLeast(open: seq<HeapEntry>, m: nat)
  {
    m < |open| && forall e :: e in open ==> open[m].0 <= e.0
  }

  lemma HeapMinLeast(open: seq<HeapEntry>)
    requires open != []
    ensures IsLeast(open, HeapMin(open))
  {
    forall e | e in open ensures open[HeapMin(open)].0 <= e.0 {
      HeapMinIsLeast(open, e);
    }
  }

  /** Dropping entries keeps the heap's estimates and its bound. */
  lemma HeapShrinks(target: Cell, universe: set<Cell>, s: Search, open': seq<HeapEntry>, bound: nat)
    requires Estimates(target, universe, s) && Above(s, bound)
    requires forall e :: e in open' ==> e in s.open
    ensures Estimates(target, universe, Search(open', s.g, s.cameFrom)) && Above(Search(open', s.g, s.cameFrom), bound)
  {
  }

  /** Popping an entry of a marked cell leaves every unmarked cell's entry in the heap. */
  lemma WaitingAfterPop(target: Cell, s: Search, visited: set<Cell>, m: nat)
    requires Waiting(target, s, visited) && m < |s.open| && s.open[m].1 in visited
    ensures Waiting(target, Search(Frontier.Remove(s.open, m), s.g, s.cameFrom), visited)
  {
    Frontier.RemoveMembers(s.open, m);
    var s' := Search(Frontier.Remove(s.open, m), s.g, s.cameFrom);
    forall n | n in s'.g && n !in visited ensures (s'.g[n] + Heuristic(n, target), n) in s'.open {
      assert (s.g[n] + Heuristic(n, target), n) in s.open;
    }
  }

  /** The cell of the least entry is scored exactly at that entry's f-score, which is at least the bound. */
  lemma PoppedScore(target: Cell, universe: set<Cell>, s: Search, visited: set<Cell>, bound: nat, m: nat)
    requires Estimates(target, universe, s) && Above(s, bound) && Waiting(target, s, visited)
    requires IsLeast(s.open, m) && s.open[m].1 !in visited
    ensures s.open[m].1 in s.g && s.open[m].1 in universe
    ensures s.g[s.open[m].1] + Heuristic(s.open[m].1, target) == s.open[m].0 >= bound
  {
    assert s.open[m] in s.open;
    var c := s.open[m].1;
    assert (s.g[c] + Heuristic(c, target), c) in s.open;
  }

  /** Popping an unmarked cell that is not the target starts its neighbour loop. */
  lemma VisitStart(snake: seq<Cell>, start: Cell, target: Cell, universe: set<Cell>,
                   s: Search, visited: set<Cell>, bound: nat)
    requires AStarInv(snake, start, target, universe, s, visited, bound)
    requires start in snake && universe == BoardCells() + {start}
    requires s.open != [] && s.open[HeapMin(s.open)].1 !in visited && s.open[HeapMin(s.open)].1 != target
    ensures var c := s.open[HeapMin(s.open)].1;
      c in s.g && c in universe &&
      Relaxing(snake, start, target, universe, Search(Frontier.Remove(s.open, HeapMin(s.open)), s.g, s.cameFrom),
               visited, c, s.g[c] + Heuristic(c, target), 0)
  {
    var m := HeapMin(s.open);
    HeapMinLeast(s.open);
    if visited == {} {
      assert s == Initial(start);
      assert m == 0 && s.open[m].1 == start;
    } else {
      assert Running(snake, start, target, universe, s, visited, bound);
      VisitStartCore(snake, start, target, universe, s, visited, bound, m);
    }
  }

  lemma VisitStartCore(snake: seq<Cell>, start: Cell, target: Cell, universe: set<Cell>,
                       s: Search, visited: set<Cell>, bound: nat, m: nat)
    requires Core(snake, start, target, universe, s, visited, bound) && start in visited
    requires IsLeast(s.open, m) && s.open[m].1 !in visited && s.open[m].1 != target
    ensures var c := s.open[m].1;
      var s' := Search(Frontier.Remove(s.open, m), s.g, s.cameFrom);
      c in s.g && c in universe &&
      Core(snake, start, target, universe, s', visited + {c}, s.g[c] + Heuristic(c, target))
  {
    var c := s.open[m].1;
    var s' := Search(Frontier.Remove(s.open, m), s.g, s.cameFrom);
    PoppedScore(target, universe, s, visited, bound, m);
    var bound' := s.g[c] + Heuristic(c, target);
    Frontier.RemoveMembers(s.open, m);
    HeapShrinks(target, universe, s, s'.open, bound');
    WaitingAfterPop(target, s, visited + {c}, m);
  }

  /** One iteration of the neighbour loop keeps the invariant and settles one more direction. */
  lemma RelaxStep(snake: seq<Cell>, start: Cell, target: Cell, universe: set<Cell>,
                  s: Search, visited: set<Cell>, c: Cell, bound: nat, k: nat)
    requires Relaxing(snake, start, target, universe, s, visited, c, bound, k) && k < 4
    ensures Relaxing(snake, start, target, universe, RelaxDir(s, c, target, snake, Directions[k]),
                     visited, c, bound, k + 1)
  {
    if Free(Step(c, Directions[k]), snake) && (Step(c, Directions[k]) !in s.g || s.g[c] + 1 < s.g[Step(c, Directions[k])]) {
      RelaxImproves(snake, start, target, universe, s, visited, c, bound, k, Step(c, Directions[k]));
    } else {
      RelaxKeep(snake, start, target, universe, s, visited, c, bound, k);
    }
  }

  /** A free neighbour n whose score one more move improves is updated, keeping the invariant. */
  lemma RelaxImproves(snake: seq<Cell>, start: Cell, target: Cell, universe: set<Cell>,
                      s: Search, visited: set<Cell>, c: Cell, bound: nat, k: nat, n: Cell)
    requires Relaxing(snake, start, target, universe, s, visited, c, bound, k) && k < 4
    requires n == Step(c, Directions[k])
    requires Free(n, snake) && (n !in s.g || s.g[c] + 1 < s.g[n])
    ensures Relaxing(snake, start, target, universe, RelaxDir(s, c, target, snake, Directions[k]),
                     visited, c, bound, k + 1)
  {
    RelaxUpdate(snake, start, target, universe, s, visited, c, bound, k, n, s.g[c] + 1,
                RelaxDir(s, c, target, snake, Directions[k]));
  }

  /** A neighbour that is off the board, on the body, or already scored as well is left alone. */
  lemma RelaxKeep(snake: seq<Cell>, start: Cell, target: Cell, universe: set<Cell>,
                  s: Search, visited: set<Cell>, c: Cell, bound: nat, k: nat)
    requires Relaxing(snake, start, target, universe, s, visited, c, bound, k) && k < 4
    requires !(Free(Step(c, Directions[k]), snake) && (Step(c, Directions[k]) !in s.g || s.g[c] + 1 < s.g[Step(c, Directions[k])]))
    ensures RelaxDir(s, c, target, snake, Directions[k]) == s
    ensures Relaxing(snake, start, target, universe, s, visited, c, bound, k + 1)
  {
  }

  /** A neighbour the loop improves is neither marked nor the popped cell, and lies on the board. */
  lemma ImprovedIsUnmarked(target: Cell, universe: set<Cell>, start: Cell, s: Search, visited: set<Cell>,
                           c: Cell, bound: nat, k: nat)
    requires k < 4 && universe == BoardCells() + {start}
    requires visited <= s.g.Keys && Within(target, s, visited, bound)
    requires c in s.g && s.g[c] + Heuristic(c, target) == bound
    requires Step(c, Directions[k]) !in s.g || s.g[c] + 1 < s.g[Step(c, Directions[k])]
    ensures Step(c, Directions[k]) !in visited
  {
    var n := Step(c, Directions[k]);
    StepIsAdjacent(c, k);
    if n in visited {
      MarkedNotImproved(target, s, visited, c, n, bound);
    }
  }

  lemma RelaxDirImproves(s: Search, c: Cell, target: Cell, snake: seq<Cell>, k: nat)
    requires k < 4 && c in s.g && Free(Step(c, Directions[k]), snake)
    requires Step(c, Directions[k]) !in s.g || s.g[c] + 1 < s.g[Step(c, Directions[k])]
    ensures RelaxDir(s, c, target, snake, Directions[k]) == Improved(s, c, Step(c, Directions[k]), s.g[c] + 1, target)
  {
  }

  /** A marked cell is never improved upon: its score plus heuristic is within the bound. */
  lemma MarkedNotImproved(target: Cell, s: Search, visited: set<Cell>, c: Cell, n: Cell, bound: nat)
    requires Within(target, s, visited, bound) && c in s.g && s.g[c] + Heuristic(c, target) == bound
    requires Adjacent(c, n) && n in visited && n in s.g
    ensures s.g[n] <= s.g[c] + 1
  {
    HeuristicConsistent(c, n, target);
  }

  /** Improving the free neighbour n of c along direction k to score t, giving r, keeps the invariant. */
  lemma RelaxUpdate(snake: seq<Cell>, start: Cell, target: Cell, universe: set<Cell>,
                    s: Search, visited: set<Cell>, c: Cell, bound: nat, k: nat, n: Cell, t: nat, r: Search)
    requires Relaxing(snake, start, target, universe, s, visited, c, bound, k) && k < 4
    requires n == Step(c, Directions[k]) && t == s.g[c] + 1
    requires Free(n, snake) && (n !in s.g || t < s.g[n])
    requires r == RelaxDir(s, c, target, snake, Directions[k])
    ensures Relaxing(snake, start, target, universe, r, visited, c, bound, k + 1)
  {
    RelaxDirImproves(s, c, target, snake, k);
    StepIsAdjacent(c, k);
    ImprovedIsUnmarked(target, universe, start, s, visited + {c}, c, bound, k);
    InBoard(n);
    HeuristicConsistent(c, n, target);
    UpdateCore(snake, start, target, universe, s, visited + {c}, bound, c, n, t, r);
    UpdateSettled(snake, target, s, visited, c, n, t, k, r);
  }

  /** Improving an unmarked free neighbour of a marked cell keeps the invariant. */
  lemma UpdateCore(snake: seq<Cell>, start: Cell, target: Cell, universe: set<Cell>,
                   s: Search, visited: set<Cell>, bound: nat, c: Cell, n: Cell, t: nat, r: Search)
    requires Core(snake, start, target, universe, s, visited, bound) && start in snake
    requires c in visited && FreeNeighbour(c, n, snake) && n !in visited && n in universe && t == s.g[c] + 1
    requires n in s.g ==> t < s.g[n]
    requires bound <= t + Heuristic(n, target)
    requires r == Improved(s, c, n, t, target)
    ensures Core(snake, start, target, universe, r, visited, bound)
  {
    UpdateLinks(snake, start, target, s, visited, c, n, t, r);
    UpdateEstimates(target, universe, s, c, n, t, r);
    UpdateAbove(target, s, bound, c, n, t, r);
    UpdateWaiting(target, s, visited, c, n, t, r);
    UpdateWithin(target, s, visited, bound, c, n, t, r);
  }

  lemma UpdateLinks(snake: seq<Cell>, start: Cell, target: Cell, s: Search, visited: set<Cell>,
                    c: Cell, n: Cell, t: nat, r: Search)
    requires Links(snake, start, s, visited) && start in snake
    requires c in visited && FreeNeighbour(c, n, snake) && n !in visited && t == s.g[c] + 1
    requires r == Improved(s, c, n, t, target)
    ensures Links(snake, start, r, visited)
  {
  }

  lemma UpdateEstimates(target: Cell, universe: set<Cell>, s: Search, c: Cell, n: Cell, t: nat, r: Search)
    requires Estimates(target, universe, s) && n in universe && (n in s.g ==> t < s.g[n])
    requires r == Improved(s, c, n, t, target)
    ensures Estimates(target, universe, r)
  {
  }

  lemma UpdateAbove(target: Cell, s: Search, bound: nat, c: Cell, n: Cell, t: nat, r: Search)
    requires Above(s, bound) && bound <= t + Heuristic(n, target)
    requires r == Improved(s, c, n, t, target)
    ensures Above(r, bound)
  {
  }

  lemma UpdateWaiting(target: Cell, s: Search, visited: set<Cell>, c: Cell, n: Cell, t: nat, r: Search)
    requires Waiting(target, s, visited)
    requires r == Improved(s, c, n, t, target)
    ensures Waiting(target, r, visited)
  {
  }

  lemma UpdateWithin(target: Cell, s: Search, visited: set<Cell>, bound: nat, c: Cell, n: Cell, t: nat, r: Search)
    requires Within(target, s, visited, bound) && n !in visited
    requires r == Improved(s, c, n, t, target)
    ensures Within(target, r, visited, bound)
  {
  }

  lemma UpdateSettled(snake: seq<Cell>, target: Cell, s: Search, visited: set<Cell>, c: Cell, n: Cell, t: nat, k: nat,
                      r: Search)
    requires k < 4 && Settled(snake, s, visited) && SettledUpTo(snake, s, c, k)
    requires c in s.g && n == Step(c, Directions[k]) && n != c && n !in visited && t == s.g[c] + 1
    requires n in s.g ==> t < s.g[n]
    requires r == Improved(s, c, n, t, target)
    ensures c in r.g && r.g[c] == s.g[c]
    ensures Settled(snake, r, visited) && SettledUpTo(snake, r, c, k + 1)
  {
  }

  /** The rest of the neighbour loop, from direction k on, by induction over the directions left. */
  lemma {:induction false} RelaxFrom(snake: seq<Cell>, start: Cell, target: Cell, universe: set<Cell>,
                                     s: Search, r: Search, visited: set<Cell>, c: Cell, bound: nat, k: nat)
    requires k <= 4 && c in s.g && r == Relax(s, c, target, snake, k)
    requires Relaxing(snake, start, target, universe, r, visited, c, bound, k)
    ensures Relaxing(snake, start, target, universe, Relax(s, c, target, snake, 4), visited, c, bound, 4)
    decreases 4 - k
  {
    if k < 4 {
      RelaxNext(snake, start, target, universe, s, r, visited, c, bound, k + 1);
      RelaxFrom(snake, start, target, universe, s, Relax(s, c, target, snake, k + 1), visited, c, bound, k + 1);
    }
  }

  /** The k-th iteration of the neighbour loop, applied after the first k - 1. */
  lemma RelaxNext(snake: seq<Cell>, start: Cell, target: Cell, universe: set<Cell>,
                  s: Search, r: Search, visited: set<Cell>, c: Cell, bound: nat, k: nat)
    requires 0 < k <= 4 && c in s.g && r == Relax(s, c, target, snake, k - 1)
    requires Relaxing(snake, start, target, universe, r, visited, c, bound, k - 1)
    ensures Relaxing(snake, start, target, universe, Relax(s, c, target, snake, k), visited, c, bound, k)
  {
    assert Relax(s, c, target, snake, k) == RelaxDir(r, c, target, snake, Directions[k - 1]);
    RelaxStep(snake, start, target, universe, r, visited, c, bound, k - 1);
  }

  /** After all four directions the popped cell is settled and joins the marked cells. */
  lemma VisitEnd(snake: seq<Cell>, start: Cell, target: Cell, universe: set<Cell>,
                 s: Search, visited: set<Cell>, c: Cell, bound: nat)
    requires Relaxing(snake, start, target, universe, s, visited, c, bound, 4)
    ensures AStarInv(snake, start, target, universe, s, visited + {c}, bound)
  {
    forall v, n | v in visited + {c} && v in s.g && FreeNeighbour(v, n, snake)
      ensures n in s.g && s.g[n] <= s.g[v] + 1
    {
      if v == c {
        var j := AdjacentIndex(c, n);
      }
    }
  }

  /** Popping an entry of a marked cell changes nothing else. */
  lemma AStarSkip(snake: seq<Cell>, start: Cell, target: Cell, universe: set<Cell>,
                  s: Search, visited: set<Cell>, bound: nat)
    requires AStarInv(snake, start, target, universe, s, visited, bound)
    requires s.open != [] && s.open[HeapMin(s.open)].1 in visited
    ensures Running(snake, start, target, universe, Search(Frontier.Remove(s.open, HeapMin(s.open)), s.g, s.cameFrom),
                    visited, bound)
  {
    var m := HeapMin(s.open);
    assert visited != {};
    assert Running(snake, start, target, universe, s, visited, bound);
    Frontier.RemoveMembers(s.open, m);
    HeapShrinks(target, universe, s, Frontier.Remove(s.open, m), bound);
    WaitingAfterPop(target, s, visited, m);
  }

  /** The expansion of a popped cell, from the pop to the end of its neighbour loop. */
  lemma AStarExpand(snake: seq<Cell>, start: Cell, target: Cell, universe: set<Cell>,
                    s: Search, visited: set<Cell>, bound: nat)
    requires AStarInv(snake, start, target, universe, s, visited, bound)
    requires start in snake && universe == BoardCells() + {start}
    requires s.open != [] && s.open[HeapMin(s.open)].1 !in visited && s.open[HeapMin(s.open)].1 != target
    ensures var c := s.open[HeapMin(s.open)].1;
      c in s.g && c in universe &&
      AStarInv(snake, start, target, universe,
               Relax(Search(Frontier.Remove(s.open, HeapMin(s.open)), s.g, s.cameFrom), c, target, snake, 4),
               visited + {c}, s.g[c] + Heuristic(c, target))
  {
    var m := HeapMin(s.open);
    var c := s.open[m].1;
    var s' := Search(Frontier.Remove(s.open, m), s.g, s.cameFrom);
    VisitStart(snake, start, target, universe, s, visited, bound);
    var bound' := s.g[c] + Heuristic(c, target);
    RelaxFrom(snake, start, target, universe, s', s', visited, c, bound', 0);
    VisitEnd(snake, start, target, universe, Relax(s', c, target, snake, 4), visited, c, bound');
  }

  // ------------------------------------------------------------------
  // Results

  /** Along a free path from the start whose first i + 1 cells are marked, cell i scores at most i. */
  lemma {:induction false} WalkSettled(snake: seq<Cell>, start: Cell, s: Search, visited: set<Cell>, q: seq<Cell>, i: nat)
    requires Links(snake, start, s, visited) && Settled(snake, s, visited)
    requires IsFreePath(q, snake) && q[0] == start && i < |q|
    requires forall j :: 0 <= j <= i ==> q[j] in visited
    ensures q[i] in s.g && s.g[q[i]] <= i
  {
    if i > 0 {
      WalkSettled(snake, start, s, visited, q, i - 1);
      assert FreeNeighbour(q[i - 1], q[i], snake);
    }
  }

  /** The first cell of q outside `visited`, when q starts inside and ends outside. */
  lemma FirstOutside(q: seq<Cell>, visited: set<Cell>) returns (i: nat)
    requires |q| > 0 && q[0] in visited && q[|q| - 1] !in visited
    ensures 0 < i < |q| && q[i] !in visited
    ensures forall j :: 0 <= j < i ==> q[j] in visited
  {
    i := 1;
    while q[i] in visited
      invariant 0 < i < |q|
      invariant forall j :: 0 <= j < i ==> q[j] in visited
      decreases |q| - i
    {
      i := i + 1;
    }
  }

  lemma SettledNeighbour(snake: seq<Cell>, s: Search, visited: set<Cell>, v: Cell, n: Cell)
    requires Settled(snake, s, visited) && v in visited && v in s.g && FreeNeighbour(v, n, snake)
    ensures n in s.g && s.g[n] <= s.g[v] + 1
  {
  }

  lemma WaitingEntry(target: Cell, s: Search, visited: set<Cell>, n: Cell)
    requires Waiting(target, s, visited) && n in s.g && n !in visited
    ensures (s.g[n] + Heuristic(n, target), n) in s.open
  {
  }

  /**
   * When the target is popped, the predecessor map leads back from it to the
   * start, and its score is at most the number of moves of any free path to it.
   */
  lemma AStarFound(snake: seq<Cell>, start: Cell, target: Cell, universe: set<Cell>,
                   s: Search, visited: set<Cell>, bound: nat)
    requires AStarInv(snake, start, target, universe, s, visited, bound)
    requires s.open != [] && s.open[HeapMin(s.open)].1 == target
    ensures target in s.g && Links(snake, start, Search([], s.g, s.cameFrom), visited)
    ensures forall q :: PathFromTo(q, start, target, snake) ==> s.g[target] + 1 <= |q|
  {
    var m := HeapMin(s.open);
    HeapMinLeast(s.open);
    if visited == {} {
      assert s == Initial(start);
    } else {
      assert Running(snake, start, target, universe, s, visited, bound);
      forall q | PathFromTo(q, start, target, snake) ensures s.g[target] + 1 <= |q| {
        FoundCore(snake, start, target, universe, s, visited, bound, m, q);
      }
      PoppedScore(target, universe, s, visited, bound, m);
    }
  }

  lemma FoundCore(snake: seq<Cell>, start: Cell, target: Cell, universe: set<Cell>,
                  s: Search, visited: set<Cell>, bound: nat, m: nat, q: seq<Cell>)
    requires Running(snake, start, target, universe, s, visited, bound)
    requires IsLeast(s.open, m) && s.open[m].1 == target
    requires PathFromTo(q, start, target, snake)
    ensures target in s.g && s.g[target] + 1 <= |q|
  {
    PoppedScore(target, universe, s, visited, bound, m);
    var i := FirstOutside(q, visited);
    var n := FrontierOnPath(snake, start, target, s, visited, q, i);
    assert (n, q[i]) in s.open;
    SuffixIsFreePath(q, i, snake);
    HeuristicAdmissible(q[i..], snake);
  }

  /**
   * The first cell q[i] of a free path from the start that is not marked has
   * its entry in the heap, scored at most i plus its heuristic.
   */
  lemma FrontierOnPath(snake: seq<Cell>, start: Cell, target: Cell, s: Search, visited: set<Cell>,
                       q: seq<Cell>, i: nat) returns (f: nat)
    requires Links(snake, start, s, visited) && Settled(snake, s, visited) && Waiting(target, s, visited)
    requires IsFreePath(q, snake) && q[0] == start && 0 < i < |q| && q[i] !in visited
    requires forall j :: 0 <= j < i ==> q[j] in visited
    ensures (f, q[i]) in s.open && f <= i + Heuristic(q[i], target)
  {
    WalkSettled(snake, start, s, visited, q, i - 1);
    assert FreeNeighbour(q[i - 1], q[i], snake);
    SettledNeighbour(snake, s, visited, q[i - 1], q[i]);
    WaitingEntry(target, s, visited, q[i]);
    f := s.g[q[i]] + Heuristic(q[i], target);
  }

  /** An empty heap means every cell reachable from the start was marked, so the target is not reachable. */
  lemma AStarExhausted(snake: seq<Cell>, start: Cell, target: Cell, universe: set<Cell>,
                       s: Search, visited: set<Cell>, bound: nat)
    requires AStarInv(snake, start, target, universe, s, visited, bound) && s.open == []
    ensures !Reachable(start, target, snake)
  {
    assert Running(snake, start, target, universe, s, visited, bound);
    if q :| PathFromTo(q, start, target, snake) {
      MarkedAlong(snake, start, target, universe, s, visited, bound, q, |q| - 1);
    }
  }

  lemma {:induction false} MarkedAlong(snake: seq<Cell>, start: Cell, target: Cell, universe: set<Cell>,
                                       s: Search, visited: set<Cell>, bound: nat, q: seq<Cell>, i: nat)
    requires Running(snake, start, target, universe, s, visited, bound) && s.open == []
    requires IsFreePath(q, snake) && q[0] == start && i < |q|
    ensures q[i] in visited
  {
    if i > 0 {
      MarkedAlong(snake, start, target, universe, s, visited, bound, q, i - 1);
      assert FreeNeighbour(q[i - 1], q[i], snake);
    }
  }

  // ------------------------------------------------------------------
  // The methods

  /** The cells of s in the opposite order (Python's `list.reverse`). */
  function Reversed(s: seq<Cell>): (r: seq<Cell>)
    ensures |r| == |s| && forall i :: 0 <= i < |s| ==> r[i] == s[|s| - 1 - i]
  {
    if s == [] then [] else Reversed(s[1..]) + [s[0]]
  }

  /** Each cell after the first was recorded with its predecessor as the preceding cell. */
  predicate FollowsLinks(r: seq<Cell>, cameFrom: map<Cell, Cell>)
  {
    forall i :: 1 <= i < |r| ==> r[i] in cameFrom && cameFrom[r[i]] == r[i - 1]
  }

  lemma LinkedIsFreePath(snake: seq<Cell>, start: Cell, s: Search, visited: set<Cell>, r: seq<Cell>)
    requires Links(snake, start, s, visited) && |r| >= 1 && FollowsLinks(r, s.cameFrom)
    ensures IsFreePath(r, snake)
  {
    forall i | 0 <= i < |r| - 1 ensures Adjacent(r[i], r[i + 1]) {
      assert FreeNeighbour(s.cameFrom[r[i + 1]], r[i + 1], snake);
    }
    forall i | 1 <= i < |r| ensures Free(r[i], snake) {
      assert FreeNeighbour(s.cameFrom[r[i]], r[i], snake);
    }
  }

  /** One more step back along the predecessors keeps the reversed chain linked. */
  lemma FollowsLinksBack(path: seq<Cell>, current: Cell, cameFrom: map<Cell, Cell>)
    requires current in cameFrom && FollowsLinks([current] + Reversed(path), cameFrom)
    ensures FollowsLinks([cameFrom[current]] + Reversed(path + [current]), cameFrom)
  {
    assert [cameFrom[current]] + Reversed(path + [current]) == [cameFrom[current]] + ([current] + Reversed(path));
  }

  /**
   * Path reconstruction: follow predecessors back from the target until the
   * start, which has none, then reverse and put the start in front.  The
   * result is a free path from start to target with exactly g[target] moves,
   * each cell preceded by its recorded predecessor.
   */
  method ReconstructPath(snake: seq<Cell>, start: Cell, target: Cell, g: map<Cell, nat>, cameFrom: map<Cell, Cell>,
                         ghost visited: set<Cell>)
    returns (r: seq<Cell>)
    requires Links(snake, start, Search([], g, cameFrom), visited) && target in g
    ensures PathFromTo(r, start, target, snake) && |r| == g[target] + 1
    ensures FollowsLinks(r, cameFrom)
  {
    var path: seq<Cell> := [];
    var current := target;
    while current in cameFrom
      invariant current in g && |path| + g[current] == g[target]
      invariant path == [] ==> current == target
      invariant path != [] ==> path[0] == target
      invariant FollowsLinks([current] + Reversed(path), cameFrom)
      decreases g[current]
    {
      FollowsLinksBack(path, current, cameFrom);
      path := path + [current];
      current := cameFrom[current];
    }
    assert current == start;
    path := Reversed(path);
    r := [start] + path;
    LinkedIsFreePath(snake, start, Search([], g, cameFrom), visited, r);
  }

  /**
   * The neighbour loop of `AStar` for the popped cell `current`: look at the
   * four directions in the fixed order and relax each neighbour that is on the
   * board and off the body.  Specified by `Relax` over all four directions.
   */
  method RelaxNeighbours(open: seq<HeapEntry>, g: map<Cell, nat>, cameFrom: map<Cell, Cell>,
                         current: Cell, target: Cell, snake: seq<Cell>)
    returns (open': seq<HeapEntry>, g': map<Cell, nat>, cameFrom': map<Cell, Cell>)
    requires current in g
    ensures Search(open', g', cameFrom') == Relax(Search(open, g, cameFrom), current, target, snake, 4)
  {
    open', g', cameFrom' := open, g, cameFrom;
    for i := 0 to 4
      invariant Search(open', g', cameFrom') == Relax(Search(open, g, cameFrom), current, target, snake, i)
    {
      open', g', cameFrom' := RelaxNeighbour(open', g', cameFrom', current, target, snake, Directions[i]);
    }
  }

  /**
   * One pass of the neighbour loop, along direction d: the Python statements
   * run on the three variables; `RelaxDir` is its specification on the whole
   * search state.
   */
  method RelaxNeighbour(open: seq<HeapEntry>, g: map<Cell, nat>, cameFrom: map<Cell, Cell>,
                        current: Cell, target: Cell, snake: seq<Cell>, d: Cell)
    returns (open': seq<HeapEntry>, g': map<Cell, nat>, cameFrom': map<Cell, Cell>)
    requires current in g && d in Directions
    ensures Search(open', g', cameFrom') == RelaxDir(Search(open, g, cameFrom), current, target, snake, d)
  {
    open', g', cameFrom' := open, g, cameFrom;
    var neighbor := (current.0 + d.0, current.1 + d.1);
    if 0 <= neighbor.0 < GridWidth && 0 <= neighbor.1 < GridHeight && neighbor !in snake {
      var tentative := g'[current] + 1;
      if neighbor !in g' || tentative < g'[neighbor] {
        g' := g'[neighbor := tentative];
        var f := tentative + Heuristic(neighbor, target);
        open' := open' + [(f, neighbor)];
        cameFrom' := cameFrom'[neighbor := current];
      }
    }
  }

  /** The state of `AStar` at the head of its loop: the heap, the scores, the links and the marked cells. */
  type AStarState = (Search, set<Cell>)

  /** The cell `AStar` pops from a state. */
  function AStarPopped(st: AStarState): Cell
    requires st.0.open != []
  {
    st.0.open[HeapMin(st.0.open)].1
  }

  /** A state the loop body can step from: the popped cell is marked or has a score. */
  predicate AStarCanStep(st: AStarState)
  {
    st.0.open != [] && (AStarPopped(st) in st.1 || AStarPopped(st) in st.0.g)
  }

  /**
   * One pass of the loop of `AStar` that does not return: the least entry is
   * taken off; a marked cell is dropped, an unmarked one is marked and its
   * neighbours are relaxed.
   */
  function AStarStep(snake: seq<Cell>, target: Cell, st: AStarState): AStarState
    requires AStarCanStep(st)
  {
    var c := AStarPopped(st);
    var rest := Search(Frontier.Remove(st.0.open, HeapMin(st.0.open)), st.0.g, st.0.cameFrom);
    if c in st.1 then (rest, st.1)
    else (Relax(rest, c, target, snake, 4), st.1 + {c})
  }

  /**
   * The states of `AStar` at every loop head with a non-empty heap, in order:
   * the first is the initial search with nothing marked, and each next one is
   * the step of the one before, which did not pop the food.
   */
  predicate AStarRun(snake: seq<Cell>, start: Cell, target: Cell, run: seq<AStarState>)
  {
    && run != [] && run[0] == (Initial(start), {})
    && (forall k :: 0 <= k < |run| ==> run[k].0.open != [])
    && (forall k :: 0 <= k < |run| - 1 ==>
          AStarPopped(run[k]) != target && AStarCanStep(run[k]) && run[k + 1] == AStarStep(snake, target, run[k]))
  }

  /** The search stops at a state that pops the food, or whose step empties the heap. */
  predicate AStarOver(snake: seq<Cell>, target: Cell, st: AStarState)
    requires st.0.open != []
  {
    AStarPopped(st) == target || (AStarCanStep(st) && AStarStep(snake, target, st).0.open == [])
  }

  /** The heap length at each state of a run: what the metric of `AStar` is the largest of. */
  function AStarSizes(run: seq<AStarState>): (sizes: seq<nat>)
    ensures |sizes| == |run|
  {
    seq(|run|, k requires 0 <= k < |run| => |run[k].0.open|)
  }

  /** The loop invariant of `AStar` about its run: `st` is the state that follows the recorded ones. */
  predicate AStarRunSoFar(snake: seq<Cell>, start: Cell, target: Cell, run: seq<AStarState>, st: AStarState)
  {
    if run == [] then st == (Initial(start), {})
    else (AStarRun(snake, start, target, run) && AStarPopped(run[|run| - 1]) != target
          && AStarCanStep(run[|run| - 1]) && AStarStep(snake, target, run[|run| - 1]) == st)
  }

  lemma AStarRunAppend(snake: seq<Cell>, start: Cell, target: Cell, run: seq<AStarState>, st: AStarState)
    requires AStarRunSoFar(snake, start, target, run, st) && st.0.open != []
    ensures AStarRun(snake, start, target, run + [st])
    ensures AStarSizes(run + [st]) == AStarSizes(run) + [|st.0.open|]
  {
  }

  lemma AStarStepCases(snake: seq<Cell>, target: Cell, st: AStarState)
    requires AStarCanStep(st)
    ensures var c, m := AStarPopped(st), HeapMin(st.0.open);
      var rest := Search(Frontier.Remove(st.0.open, m), st.0.g, st.0.cameFrom);
      && (c in st.1 ==> AStarStep(snake, target, st) == (rest, st.1))
      && (c !in st.1 ==> AStarStep(snake, target, st) == (Relax(rest, c, target, snake, 4), st.1 + {c}))
  {
  }

  /** No state of a run but its last is over. */
  lemma AStarRunOverOnlyAtEnd(snake: seq<Cell>, start: Cell, target: Cell, run: seq<AStarState>)
    requires AStarRun(snake, start, target, run)
    ensures forall k :: 0 <= k < |run| - 1 ==> !AStarOver(snake, target, run[k])
  {
    forall k | 0 <= k < |run| - 1 ensures !AStarOver(snake, target, run[k]) {
      assert run[k + 1] == AStarStep(snake, target, run[k]);
    }
  }

  /** A run that agrees with an over run up to that run's length goes no further. */
  lemma AStarRunStops(snake: seq<Cell>, start: Cell, target: Cell, r1: seq<AStarState>, r2: seq<AStarState>)
    requires AStarRun(snake, start, target, r1) && AStarOver(snake, target, r1[|r1| - 1])
    requires AStarRun(snake, start, target, r2) && |r1| <= |r2|
    requires forall i :: 0 <= i < |r1| ==> r1[i] == r2[i]
    ensures |r2| == |r1|
  {
    AStarRunOverOnlyAtEnd(snake, start, target, r2);
    assert r1[|r1| - 1] == r2[|r1| - 1];
  }

  /**
   * Two runs from the same origin that are both over are the same run, so the
   * metric `AStar` returns is determined by the body and the food alone.
   */
  lemma AStarRunUnique(snake: seq<Cell>, start: Cell, target: Cell, r1: seq<AStarState>, r2: seq<AStarState>)
    requires AStarRun(snake, start, target, r1) && AStarOver(snake, target, r1[|r1| - 1])
    requires AStarRun(snake, start, target, r2) && AStarOver(snake, target, r2[|r2| - 1])
    ensures r1 == r2
  {
    var n := if |r1| < |r2| then |r1| else |r2|;
    for k := 1 to n
      invariant forall i :: 0 <= i < k ==> r1[i] == r2[i]
    {
      assert r1[k] == AStarStep(snake, target, r1[k - 1]) && r2[k] == AStarStep(snake, target, r2[k - 1]);
    }
    if |r1| <= |r2| {
      AStarRunStops(snake, start, target, r1, r2);
    } else {
      AStarRunStops(snake, start, target, r2, r1);
    }
  }

  /**
   * A* search from the head to the food.  The result, when there is one, is
   * a shortest free path (so the same length as the breadth-first one);
   * None comes back exactly when no free path reaches the food.
   */
  method AStar(snake: seq<Cell>, food: Cell) returns (path: Option<seq<Cell>>, maxNodes: nat, ghost run: seq<AStarState>)
    requires |snake| > 0
    ensures path.Some? ==> IsShortestPath(path.value, snake[0], food, snake)
    ensures path.None? ==> !Reachable(snake[0], food, snake)
    ensures AStarRun(snake, snake[0], food, run) && AStarOver(snake, food, run[|run| - 1])
    ensures path.Some? <==> AStarPopped(run[|run| - 1]) == food
    ensures maxNodes == MaxOf(AStarSizes(run))
  {
    var start := snake[0];
    var target := food;
    var openList: seq<HeapEntry> := [(0, start)];
    var gScore: map<Cell, nat> := map[start := 0];
    var cameFrom: map<Cell, Cell> := map[];
    var visited: set<Cell> := {};
    maxNodes := 0;
    run := [];
    ghost var bound: nat := 0;
    ghost var universe := BoardCells() + {start};
    AStarInitial(snake, start, target);
    while openList != []
      invariant AStarInv(snake, start, target, universe, Search(openList, gScore, cameFrom), visited, bound)
      invariant AStarRunSoFar(snake, start, target, run, (Search(openList, gScore, cameFrom), visited))
      invariant maxNodes == MaxOf(AStarSizes(run))
      decreases universe - visited, |openList|
    {
      ghost var cur := (Search(openList, gScore, cameFrom), visited);
      AStarRunAppend(snake, start, target, run, cur);
      MaxOfAppend(AStarSizes(run), |openList|);
      run := run + [cur];
      maxNodes := Max(maxNodes, |openList|);
      ghost var before := Search(openList, gScore, cameFrom);
      var m := HeapMin(openList);
      var fScore, current := openList[m].0, openList[m].1;
      openList := Frontier.Remove(openList, m);
      if current == target {
        AStarFound(snake, start, target, universe, before, visited, bound);
        var p := ReconstructPath(snake, start, target, gScore, cameFrom, visited);
        path := Some(p);
        return;
      }
      if current in visited {
        AStarSkip(snake, start, target, universe, before, visited, bound);
        AStarStepCases(snake, target, cur);
        continue;
      }
      AStarExpand(snake, start, target, universe, before, visited, bound);
      AStarStepCases(snake, target, cur);
      bound := gScore[current] + Heuristic(current, target);
      visited := visited + {current};
      openList, gScore, cameFrom := RelaxNeighbours(openList, gScore, cameFrom, current, target, snake);
    }
    AStarExhausted(snake, start, target, universe, Search(openList, gScore, cameFrom), visited, bound);
    path := None;
  }
}
