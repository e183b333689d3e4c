/**
 * The four search strategies of the snake agent.  Each receives the body (its
 * head, index 0, is the origin) and the food cell, and returns the path found,
 * origin included, or None, together with the largest frontier length it saw
 * at the head of its main loop.  Each also returns, as a ghost value, its
 * run: the state at every loop head, each the step of the one before, and
 * the metric is the largest frontier length over that run.
 */
module SnakeAI {
  import opened Wrappers
  import opened Grid
  import Frontier

  // ------------------------------------------------------------------
  // Breadth-first search

  /** A queue entry of `Bfs`: a cell and the cells walked after the origin to reach it. */
  type Trail = (Cell, seq<Cell>)

  /** The proof's view of a queue of trails: each cell with its number of moves. */
  function TrailView(q: seq<Trail>): (v: seq<Frontier.Entry>)
    ensures |v| == |q|
  {
    seq(|q|, k requires 0 <= k < |q| => (q[k].0, |q[k].1|))
  }

  /** The entries the neighbour loop appends for cell c, reached by walking p, along directions ds. */
  function Extend(c: Cell, p: seq<Cell>, ds: seq<Cell>): (r: seq<Trail>)
    ensures |r| == |ds|
  {
    seq(|ds|, k requires 0 <= k < |ds| => (Step(c, ds[k]), p + [Step(c, ds[k])]))
  }

  /** Each entry's walk, after the origin, leads over free cells to the entry's cell. */
  predicate TrailsValid(q: seq<Trail>, start: Cell, snake: seq<Cell>)
  {
    forall k :: 0 <= k < |q| ==> PathFromTo([start] + q[k].1, start, q[k].0, snake)
  }

  /** FIFO order: moves never decrease along the queue and span at most one level. */
  predicate LevelOrder(v: seq<Frontier.Entry>)
  {
    forall i, j :: 0 <= i <= j < |v| ==> v[i].1 <= v[j].1 <= v[i].1 + 1
  }

  lemma ExtendAppend(c: Cell, p: seq<Cell>, ds: seq<Cell>, d: Cell)
    ensures Extend(c, p, ds + [d]) == Extend(c, p, ds) + [(Step(c, d), p + [Step(c, d)])]
  {
  }

  lemma TrailViewAppend(rest: seq<Trail>, c: Cell, p: seq<Cell>, ds: seq<Cell>)
    ensures TrailView(rest + Extend(c, p, ds)) == TrailView(rest) + Frontier.Tag(Targets(c, ds), |p| + 1)
  {
  }

  lemma TrailViewTail(queue: seq<Trail>)
    requires queue != []
    ensures TrailView(queue[1..]) == TrailView(queue)[1..] == Frontier.Remove(TrailView(queue), 0)
  {
  }

  /** The entries one expansion appends are valid walks to cells on the board. */
  lemma ExtendValid(snake: seq<Cell>, start: Cell, cell: Cell, trail: seq<Cell>, rest: seq<Trail>,
                    visited: set<Cell>)
    requires PathFromTo([start] + trail, start, cell, snake)
    requires TrailsValid(rest, start, snake)
    ensures var ds := OpenDirections(cell, snake, visited, 4);
      && TrailsValid(rest + Extend(cell, trail, ds), start, snake)
      && forall k :: 0 <= k < |ds| ==> Step(cell, ds[k]) in BoardCells()
  {
    var ds := OpenDirections(cell, snake, visited, 4);
    var q := rest + Extend(cell, trail, ds);
    OpenDirectionsSpec(cell, snake, visited, 4);
    forall k | 0 <= k < |q| ensures PathFromTo([start] + q[k].1, start, q[k].0, snake) {
      if k >= |rest| {
        var d := ds[k - |rest|];
        assert d in ds;
        var n := Step(cell, d);
        assert Delta(cell, n) == d;
        ExtendFreePath([start] + trail, n, snake);
        assert [start] + (trail + [n]) == ([start] + trail) + [n];
      }
    }
    forall k | 0 <= k < |ds| ensures Step(cell, ds[k]) in BoardCells() {
      assert ds[k] in ds;
      InBoard(Step(cell, ds[k]));
    }
  }

  /** Cells of the cheapest level come first, so the front of the queue is a cheapest entry. */
  lemma LevelOrderFront(v: seq<Frontier.Entry>)
    requires LevelOrder(v) && v != []
    ensures Frontier.IsCheapest(v, 0)
  {
  }

  lemma LevelOrderTail(v: seq<Frontier.Entry>, v': seq<Frontier.Entry>)
    requires LevelOrder(v) && v != [] && v' == v[1..]
    ensures LevelOrder(v')
  {
  }

  /** Popping the front and pushing cells one move further than it, giving v', keeps the level order. */
  lemma LevelOrderPush(v: seq<Frontier.Entry>, cs: seq<Cell>, v': seq<Frontier.Entry>)
    requires LevelOrder(v) && v != [] && v' == Frontier.Remove(v, 0) + Frontier.Tag(cs, v[0].1 + 1)
    ensures LevelOrder(v')
  {
    assert Frontier.Remove(v, 0) == v[1..];
  }

  /**
   * The neighbour loop of `Bfs`: for each direction in the fixed order, append
   * the neighbour, with the walk extended by it, when it is on the board, off
   * the body and not yet visited.  Specified by `Extend` over the directions
   * that pass the test.
   */
  method PushTrails(queue: seq<Trail>, cell: Cell, trail: seq<Cell>, snake: seq<Cell>, visited: set<Cell>)
    returns (queue': seq<Trail>)
    ensures queue' == queue + Extend(cell, trail, OpenDirections(cell, snake, visited, 4))
  {
    queue' := queue;
    for i := 0 to 4
      invariant queue' == queue + Extend(cell, trail, OpenDirections(cell, snake, visited, i))
    {
      var d := Directions[i];
      var next := (cell.0 + d.0, cell.1 + d.1);
      ExtendAppend(cell, trail, OpenDirections(cell, snake, visited, i), d);
      if 0 <= next.0 < GridWidth && 0 <= next.1 < GridHeight && next !in snake && next !in visited {
        queue' := queue' + [(next, trail + [next])];
      }
    }
  }

  /** The loop invariant of `Bfs`. */
  ghost predicate BfsInv(snake: seq<Cell>, start: Cell, target: Cell, universe: set<Cell>,
                         queue: seq<Trail>, visited: set<Cell>, dist: map<Cell, nat>)
  {
    && visited <= universe
    && (forall k :: 0 <= k < |queue| ==> queue[k].0 in universe)
    && TrailsValid(queue, start, snake)
    && Frontier.Layered(snake, start, target, visited, dist, TrailView(queue))
    && LevelOrder(TrailView(queue))
  }

  lemma BfsInitial(snake: seq<Cell>, start: Cell, target: Cell)
    ensures BfsInv(snake, start, target, BoardCells() + {start}, [(start, [])], {}, map[])
  {
    Frontier.Initial(snake, start, target);
    assert TrailView([(start, [])]) == [(start, 0)];
  }

  lemma BfsSkip(snake: seq<Cell>, start: Cell, target: Cell, universe: set<Cell>,
                queue: seq<Trail>, visited: set<Cell>, dist: map<Cell, nat>)
    requires BfsInv(snake, start, target, universe, queue, visited, dist)
    requires queue != [] && queue[0].0 in visited
    ensures BfsInv(snake, start, target, universe, queue[1..], visited, dist)
  {
    var view := TrailView(queue);
    LevelOrderFront(view);
    TrailViewTail(queue);
    Frontier.SkipFirst(snake, start, target, visited, dist, view, TrailView(queue[1..]));
    LevelOrderTail(view, TrailView(queue[1..]));
  }

  lemma BfsExpand(snake: seq<Cell>, start: Cell, target: Cell, universe: set<Cell>,
                  queue: seq<Trail>, visited: set<Cell>, dist: map<Cell, nat>)
    requires BfsInv(snake, start, target, universe, queue, visited, dist)
    requires universe == BoardCells() + {start}
    requires queue != [] && queue[0].0 !in visited && queue[0].0 != target
    ensures var c, p := queue[0].0, queue[0].1;
      BfsInv(snake, start, target, universe,
             queue[1..] + Extend(c, p, OpenDirections(c, snake, visited + {c}, 4)),
             visited + {c}, dist[c := |p|])
  {
    var c, p := queue[0].0, queue[0].1;
    var visited' := visited + {c};
    var ds := OpenDirections(c, snake, visited', 4);
    assert PathFromTo([start] + p, start, c, snake);
    ExtendValid(snake, start, c, p, queue[1..], visited');
    BfsExpandFrontier(snake, start, target, queue, visited, dist);
  }

  /** The proof view of the queue after an expansion keeps the frontier invariant. */
  lemma BfsExpandFrontier(snake: seq<Cell>, start: Cell, target: Cell,
                          queue: seq<Trail>, visited: set<Cell>, dist: map<Cell, nat>)
    requires Frontier.Layered(snake, start, target, visited, dist, TrailView(queue))
    requires LevelOrder(TrailView(queue))
    requires queue != [] && queue[0].0 !in visited && queue[0].0 != target
    ensures var c, p := queue[0].0, queue[0].1;
      var queue' := queue[1..] + Extend(c, p, OpenDirections(c, snake, visited + {c}, 4));
      && Frontier.Layered(snake, start, target, visited + {c}, dist[c := |p|], TrailView(queue'))
      && LevelOrder(TrailView(queue'))
  {
    var c, p := queue[0].0, queue[0].1;
    var ds := OpenDirections(c, snake, visited + {c}, 4);
    var view := TrailView(queue);
    var view' := TrailView(queue[1..] + Extend(c, p, ds));
    TrailViewShift(queue, c, p, ds);
    LevelOrderFront(view);
    ExpandAt(snake, start, target, visited, dist, view, 0, c, |p|, view');
    LevelOrderPush(view, Targets(c, ds), view');
  }

  /** The proof view after an expansion: the front entry gone, the pushed cells one move further at the back. */
  lemma TrailViewShift(queue: seq<Trail>, c: Cell, p: seq<Cell>, ds: seq<Cell>)
    requires queue != [] && queue[0] == (c, p)
    ensures TrailView(queue)[0] == (c, |p|)
    ensures TrailView(queue[1..] + Extend(c, p, ds))
         == Frontier.Remove(TrailView(queue), 0) + Frontier.Tag(Targets(c, ds), |p| + 1)
  {
    TrailViewTail(queue);
    TrailViewAppend(queue[1..], c, p, ds);
  }

  lemma BfsFound(snake: seq<Cell>, start: Cell, target: Cell, universe: set<Cell>,
                 queue: seq<Trail>, visited: set<Cell>, dist: map<Cell, nat>)
    requires BfsInv(snake, start, target, universe, queue, visited, dist)
    requires queue != [] && queue[0].0 == target
    ensures IsShortestPath([start] + queue[0].1, start, target, snake)
  {
    var view := TrailView(queue);
    LevelOrderFront(view);
    assert PathFromTo([start] + queue[0].1, start, target, snake);
    forall q | PathFromTo(q, start, target, snake) ensures |[start] + queue[0].1| <= |q| {
      Frontier.FoundIsShortest(snake, start, target, visited, dist, view, 0, q);
    }
  }

  lemma BfsExhausted(snake: seq<Cell>, start: Cell, target: Cell, universe: set<Cell>,
                     visited: set<Cell>, dist: map<Cell, nat>)
    requires BfsInv(snake, start, target, universe, [], visited, dist)
    ensures !Reachable(start, target, snake)
  {
    assert TrailView([]) == [];
    Frontier.Exhausted(snake, start, target, visited, dist);
  }

  /** The state of `Bfs` at the head of its loop: the queue and the marked cells. */
  type BfsState = (seq<Trail>, set<Cell>)

  /**
   * One pass of the loop of `Bfs` that does not return: the front entry is
   * taken off; a marked cell is dropped, an unmarked one is marked and its
   * free unmarked neighbours are appended, one move further.
   */
  function BfsStep(snake: seq<Cell>, st: BfsState): BfsState
    requires st.0 != []
  {
    var c, p := st.0[0].0, st.0[0].1;
    if c in st.1 then (st.0[1..], st.1)
    else (st.0[1..] + Extend(c, p, OpenDirections(c, snake, st.1 + {c}, 4)), st.1 + {c})
  }

  /**
   * The states of `Bfs` at every loop head with a non-empty queue, in order:
   * the first holds the origin alone with nothing marked, and each next one is
   * the step of the one before, whose front was not the food.
   */
  predicate BfsRun(snake: seq<Cell>, start: Cell, target: Cell, run: seq<BfsState>)
  {
    && run != [] && run[0] == ([(start, [])], {})
    && (forall k :: 0 <= k < |run| ==> run[k].0 != [])
    && (forall k :: 0 <= k < |run| - 1 ==> run[k].0[0].0 != target && run[k + 1] == BfsStep(snake, run[k]))
  }

  /** The search stops at a state whose front is the food, or whose step empties the queue. */
  predicate BfsOver(snake: seq<Cell>, target: Cell, st: BfsState)
    requires st.0 != []
  {
    st.0[0].0 == target || BfsStep(snake, st).0 == []
  }

  /** The loop invariant of `Bfs` about its run: `st` is the state that follows the recorded ones. */
  predicate BfsRunSoFar(snake: seq<Cell>, start: Cell, target: Cell, run: seq<BfsState>, st: BfsState)
  {
    if run == [] then st == ([(start, [])], {})
    else (BfsRun(snake, start, target, run) && run[|run| - 1].0[0].0 != target
          && BfsStep(snake, run[|run| - 1]) == st)
  }

  lemma BfsRunAppend(snake: seq<Cell>, start: Cell, target: Cell, run: seq<BfsState>, st: BfsState)
    requires BfsRunSoFar(snake, start, target, run, st) && st.0 != []
    ensures BfsRun(snake, start, target, run + [st])
    ensures FrontierSizes(run + [st]) == FrontierSizes(run) + [|st.0|]
  {
  }

  /** No state of a run but its last is over. */
  lemma BfsRunOverOnlyAtEnd(snake: seq<Cell>, start: Cell, target: Cell, run: seq<BfsState>)
    requires BfsRun(snake, start, target, run)
    ensures forall k :: 0 <= k < |run| - 1 ==> !BfsOver(snake, target, run[k])
  {
    forall k | 0 <= k < |run| - 1 ensures !BfsOver(snake, target, run[k]) {
      assert run[k + 1] == BfsStep(snake, run[k]);
    }
  }

  /** A run that agrees with an over run up to that run's length goes no further. */
  lemma BfsRunStops(snake: seq<Cell>, start: Cell, target: Cell, r1: seq<BfsState>, r2: seq<BfsState>)
    requires BfsRun(snake, start, target, r1) && BfsOver(snake, target, r1[|r1| - 1])
    requires BfsRun(snake, start, target, r2) && |r1| <= |r2|
    requires forall i :: 0 <= i < |r1| ==> r1[i] == r2[i]
    ensures |r2| == |r1|
  {
    BfsRunOverOnlyAtEnd(snake, start, target, r2);
    assert r1[|r1| - 1] == r2[|r1| - 1];
  }

  /**
   * Two runs from the same origin that are both over are the same run, so the
   * metric `Bfs` returns is determined by the body and the food alone.
   */
  lemma BfsRunUnique(snake: seq<Cell>, start: Cell, target: Cell, r1: seq<BfsState>, r2: seq<BfsState>)
    requires BfsRun(snake, start, target, r1) && BfsOver(snake, target, r1[|r1| - 1])
    requires BfsRun(snake, start, target, r2) && BfsOver(snake, target, r2[|r2| - 1])
    ensures r1 == r2
  {
    var n := if |r1| < |r2| then |r1| else |r2|;
    for k := 1 to n
      invariant forall i :: 0 <= i < k ==> r1[i] == r2[i]
    {
      assert r1[k] == BfsStep(snake, r1[k - 1]) && r2[k] == BfsStep(snake, r2[k - 1]);
    }
    if |r1| <= |r2| {
      BfsRunStops(snake, start, target, r1, r2);
    } else {
      BfsRunStops(snake, start, target, r2, r1);
    }
  }

  /**
   * Breadth-first search from the head to the food (the queue of
   * (cell, path) pairs; a cell is marked when taken off the queue).  The path
   * returned includes the head and has the fewest cells of all free paths;
   * None is returned exactly when no free path reaches the food.
   */
  method Bfs(snake: seq<Cell>, food: Cell) returns (path: Option<seq<Cell>>, maxNodes: nat, ghost run: seq<BfsState>)
    requires |snake| > 0
    ensures path.Some? ==> IsShortestPath(path.value, snake[0], food, snake)
    ensures path.None? ==> !Reachable(snake[0], food, snake)
    ensures BfsRun(snake, snake[0], food, run) && BfsOver(snake, food, run[|run| - 1])
    ensures path.Some? <==> run[|run| - 1].0[0].0 == food
    ensures path.Some? ==> path.value == [snake[0]] + run[|run| - 1].0[0].1
    ensures maxNodes == MaxOf(FrontierSizes(run))
  {
    var start := snake[0];
    var target := food;
    var queue: seq<Trail> := [(start, [])];
    var visited: set<Cell> := {};
    maxNodes := 0;
    run := [];
    ghost var dist: map<Cell, nat> := map[];
    ghost var universe := BoardCells() + {start};
    BfsInitial(snake, start, target);
    while queue != []
      invariant BfsInv(snake, start, target, universe, queue, visited, dist)
      invariant BfsRunSoFar(snake, start, target, run, (queue, visited))
      invariant maxNodes == MaxOf(FrontierSizes(run))
      decreases universe - visited, |queue|
    {
      BfsRunAppend(snake, start, target, run, (queue, visited));
      MaxOfAppend(FrontierSizes(run), |queue|);
      run := run + [(queue, visited)];
      maxNodes := Max(maxNodes, |queue|);
      ghost var before := queue;
      var cell, trail := queue[0].0, queue[0].1;
      queue := queue[1..];
      if cell == target {
        BfsFound(snake, start, target, universe, before, visited, dist);
        path := Some([start] + trail);
        return;
      }
      if cell in visited {
        BfsSkip(snake, start, target, universe, before, visited, dist);
        continue;
      }
      BfsExpand(snake, start, target, universe, before, visited, dist);
      visited := visited + {cell};
      queue := PushTrails(queue, cell, trail, snake, visited);
      dist := dist[cell := |trail|];
    }
    BfsExhausted(snake, start, target, universe, visited, dist);
    path := None;
  }

  /**
   * A result meeting the contract of `Bfs` (and of `Ucs` and `AStar`) for a
   * search whose food is on the head itself is the one-cell path.
   */
  lemma AtFoodPathIsHead(path: Option<seq<Cell>>, start: Cell, snake: seq<Cell>)
    requires path.Some? ==> IsShortestPath(path.value, start, start, snake)
    requires path.None? ==> !Reachable(start, start, snake)
    ensures path == Some([start])
  {
    assert PathFromTo([start], start, start, snake);
    if path.Some? {
      assert |path.value| <= 1;
      assert path.value == [path.value[0]];
    }
  }

  // ------------------------------------------------------------------
  // The order of heap entries (Python's lexicographic tuple and list order)

  /** Python's list order: element by element, a proper prefix first. */
  predicate PathBefore(p: seq<Cell>, q: seq<Cell>)
    decreases |p|
  {
    if p == [] then q != []
    else if q == [] then false
    else CellBefore(p[0], q[0]) || (p[0] == q[0] && PathBefore(p[1..], q[1..]))
  }

  lemma {:induction false} PathBeforeTransitive(p: seq<Cell>, q: seq<Cell>, r: seq<Cell>)
    requires PathBefore(p, q) && PathBefore(q, r)
    ensures PathBefore(p, r)
    decreases |p|
  {
    if p != [] && q != [] && r != [] && p[0] == q[0] && q[0] == r[0] {
      PathBeforeTransitive(p[1..], q[1..], r[1..]);
    }
  }

  lemma {:induction false} PathBeforeTotal(p: seq<Cell>, q: seq<Cell>)
    requires p != q
    ensures PathBefore(p, q) || PathBefore(q, p)
    decreases |p|
  {
    if p != [] && q != [] && p[0] == q[0] {
      assert p == [p[0]] + p[1..] && q == [q[0]] + q[1..];
      PathBeforeTotal(p[1..], q[1..]);
    }
  }

  /** A uniform-cost heap entry: (cost, cell, walk after the origin). */
  type UcsEntry = (nat, Cell, seq<Cell>)

  predicate UcsBefore(a: UcsEntry, b: UcsEntry)
  {
    a.0 < b.0 || (a.0 == b.0 && (CellBefore(a.1, b.1) || (a.1 == b.1 && PathBefore(a.2, b.2))))
  }

  lemma {:induction false} PathBeforeIrreflexive(p: seq<Cell>)
    ensures !PathBefore(p, p)
    decreases |p|
  {
    if p != [] {
      PathBeforeIrreflexive(p[1..]);
    }
  }

  lemma UcsBeforeTransitive(a: UcsEntry, b: UcsEntry, c: UcsEntry)
    requires UcsBefore(a, b) && UcsBefore(b, c)
    ensures UcsBefore(a, c)
  {
    if a.0 == b.0 == c.0 && a.1 == b.1 == c.1 {
      PathBeforeTransitive(a.2, b.2, c.2);
    }
  }

  /** Two entries neither of which comes before the other are equal: the heap's minimum is one value. */
  lemma UcsMinimumIsUnique(a: UcsEntry, b: UcsEntry)
    requires !UcsBefore(a, b) && !UcsBefore(b, a)
    ensures a == b
  {
    if a.2 != b.2 {
      PathBeforeTotal(a.2, b.2);
    }
  }

  /** The index of the entry `heapq.heappop` removes: one that no other entry comes before. */
  function UcsMin(open: seq<UcsEntry>): (m: nat)
    requires open != []
    ensures m < |open| && forall k :: 0 <= k < |open| ==> !UcsBefore(open[k], open[m])
  {
    if |open| == 1 then
      PathBeforeIrreflexive(open[0].2);
      0
    else
      var m' := UcsMin(open[..|open| - 1]);
      assert forall k :: 0 <= k < |open| - 1 ==> open[k] == open[..|open| - 1][k];
      var last := open[|open| - 1];
      if UcsBefore(last, open[m']) then
        assert forall k :: 0 <= k < |open| ==> !UcsBefore(open[k], last) by {
          forall k | 0 <= k < |open| && UcsBefore(open[k], last) ensures false {
            PathBeforeIrreflexive(last.2);
            assert k < |open| - 1;
            UcsBeforeTransitive(open[k], last, open[m']);
          }
        }
        |open| - 1
      else
        m'
  }

  // ------------------------------------------------------------------
  // Uniform-cost search

  /** The walks carried by heap entries, as queue trails. */
  function UcsTrails(open: seq<UcsEntry>): (q: seq<Trail>)
    ensures |q| == |open|
  {
    seq(|open|, k requires 0 <= k < |open| => (open[k].1, open[k].2))
  }

  /** The entries the neighbour loop of `Ucs` pushes for cell c, reached at cost `cost` along p. */
  function UcsExtend(cost: nat, c: Cell, p: seq<Cell>, ds: seq<Cell>): (r: seq<UcsEntry>)
    ensures |r| == |ds|
  {
    seq(|ds|, k requires 0 <= k < |ds| => (cost + 1, Step(c, ds[k]), p + [Step(c, ds[k])]))
  }

  lemma UcsExtendAppend(cost: nat, c: Cell, p: seq<Cell>, ds: seq<Cell>, d: Cell)
    ensures UcsExtend(cost, c, p, ds + [d]) == UcsExtend(cost, c, p, ds) + [(cost + 1, Step(c, d), p + [Step(c, d)])]
  {
  }

  predicate CostsAreLengths(open: seq<UcsEntry>)
  {
    forall k :: 0 <= k < |open| ==> open[k].0 == |open[k].2|
  }

  predicate NonDecreasing(s: seq<nat>)
  {
    forall i, j :: 0 <= i < j < |s| ==> s[i] <= s[j]
  }

  /** The loop invariant of `Ucs`. */
  ghost predicate UcsInv(snake: seq<Cell>, start: Cell, target: Cell, universe: set<Cell>,
                         open: seq<UcsEntry>, visited: set<Cell>, dist: map<Cell, nat>)
  {
    && CostsAreLengths(open)
    && visited <= universe
    && (forall k :: 0 <= k < |open| ==> open[k].1 in universe)
    && TrailsValid(UcsTrails(open), start, snake)
    && Frontier.Layered(snake, start, target, visited, dist, TrailView(UcsTrails(open)))
  }

  lemma UcsInitial(snake: seq<Cell>, start: Cell, target: Cell)
    ensures UcsInv(snake, start, target, BoardCells() + {start}, [(0, start, [])], {}, map[])
  {
    Frontier.Initial(snake, start, target);
    assert UcsTrails([(0, start, [])]) == [(start, [])];
    assert TrailView([(start, [])]) == [(start, 0)];
  }

  lemma TrailsRemove(q: seq<Trail>, m: nat, start: Cell, snake: seq<Cell>)
    requires m < |q| && TrailsValid(q, start, snake)
    ensures TrailsValid(Frontier.Remove(q, m), start, snake)
    ensures TrailView(Frontier.Remove(q, m)) == Frontier.Remove(TrailView(q), m)
  {
    var r := Frontier.Remove(q, m);
    forall k | 0 <= k < |r| ensures PathFromTo([start] + r[k].1, start, r[k].0, snake) {
      if k < m { assert r[k] == q[k]; } else { assert r[k] == q[k + 1]; }
    }
  }

  lemma UcsRemove(open: seq<UcsEntry>, m: nat)
    requires m < |open|
    ensures UcsTrails(Frontier.Remove(open, m)) == Frontier.Remove(UcsTrails(open), m)
    ensures CostsAreLengths(open) ==> CostsAreLengths(Frontier.Remove(open, m))
  {
  }

  /** With costs equal to walk lengths, the entry the heap pops has the fewest moves. */
  lemma UcsCheapest(open: seq<UcsEntry>)
    requires open != [] && CostsAreLengths(open)
    ensures Frontier.IsCheapest(TrailView(UcsTrails(open)), UcsMin(open))
  {
    var m := UcsMin(open);
    var v := TrailView(UcsTrails(open));
    forall e | e in v ensures v[m].1 <= e.1 {
      var k :| 0 <= k < |v| && v[k] == e;
      assert !UcsBefore(open[k], open[m]);
    }
  }

  lemma UcsSkip(snake: seq<Cell>, start: Cell, target: Cell, universe: set<Cell>,
                open: seq<UcsEntry>, visited: set<Cell>, dist: map<Cell, nat>)
    requires UcsInv(snake, start, target, universe, open, visited, dist)
    requires open != [] && open[UcsMin(open)].1 in visited
    ensures UcsInv(snake, start, target, universe, Frontier.Remove(open, UcsMin(open)), visited, dist)
  {
    var m := UcsMin(open);
    UcsCheapest(open);
    UcsRemove(open, m);
    TrailsRemove(UcsTrails(open), m, start, snake);
    Frontier.Skip(snake, start, target, visited, dist, TrailView(UcsTrails(open)), m);
  }

  lemma UcsExpand(snake: seq<Cell>, start: Cell, target: Cell, universe: set<Cell>,
                  open: seq<UcsEntry>, visited: set<Cell>, dist: map<Cell, nat>)
    requires UcsInv(snake, start, target, universe, open, visited, dist)
    requires universe == BoardCells() + {start}
    requires open != [] && open[UcsMin(open)].1 !in visited && open[UcsMin(open)].1 != target
    ensures var e := open[UcsMin(open)];
      UcsInv(snake, start, target, universe,
             Frontier.Remove(open, UcsMin(open)) + UcsExtend(e.0, e.1, e.2, OpenDirections(e.1, snake, visited + {e.1}, 4)),
             visited + {e.1}, dist[e.1 := e.0])
  {
    var m := UcsMin(open);
    var e := open[m];
    UcsExpandShape(snake, start, universe, open, m, visited + {e.1});
    UcsExpandLayered(snake, start, target, open, visited, dist);
  }

  /** Popping entry m and pushing its extensions keeps costs, cells and walks valid. */
  lemma UcsExpandShape(snake: seq<Cell>, start: Cell, universe: set<Cell>,
                       open: seq<UcsEntry>, m: nat, visited: set<Cell>)
    requires m < |open| && CostsAreLengths(open) && universe == BoardCells() + {start}
    requires forall k :: 0 <= k < |open| ==> open[k].1 in universe
    requires TrailsValid(UcsTrails(open), start, snake)
    ensures var e := open[m];
      var open' := Frontier.Remove(open, m) + UcsExtend(e.0, e.1, e.2, OpenDirections(e.1, snake, visited, 4));
      && CostsAreLengths(open')
      && (forall k :: 0 <= k < |open'| ==> open'[k].1 in universe)
      && TrailsValid(UcsTrails(open'), start, snake)
  {
    var e := open[m];
    var ds := OpenDirections(e.1, snake, visited, 4);
    var rest := Frontier.Remove(open, m);
    var open' := rest + UcsExtend(e.0, e.1, e.2, ds);
    assert UcsTrails(open)[m] == (e.1, e.2);
    UcsRemove(open, m);
    TrailsRemove(UcsTrails(open), m, start, snake);
    assert UcsTrails(open') == UcsTrails(rest) + Extend(e.1, e.2, ds);
    ExtendValid(snake, start, e.1, e.2, UcsTrails(rest), visited);
    forall k | 0 <= k < |open'| ensures open'[k].1 in universe {
      if k >= |rest| {
        assert open'[k].1 == UcsTrails(open')[k].0;
      } else {
        assert open'[k] == rest[k];
        assert rest[k] in open;
      }
    }
  }

  lemma UcsExpandLayered(snake: seq<Cell>, start: Cell, target: Cell,
                         open: seq<UcsEntry>, visited: set<Cell>, dist: map<Cell, nat>)
    requires CostsAreLengths(open)
    requires Frontier.Layered(snake, start, target, visited, dist, TrailView(UcsTrails(open)))
    requires open != [] && open[UcsMin(open)].1 !in visited && open[UcsMin(open)].1 != target
    ensures var e := open[UcsMin(open)];
      var open' := Frontier.Remove(open, UcsMin(open)) + UcsExtend(e.0, e.1, e.2, OpenDirections(e.1, snake, visited + {e.1}, 4));
      Frontier.Layered(snake, start, target, visited + {e.1}, dist[e.1 := e.0], TrailView(UcsTrails(open')))
  {
    var m := UcsMin(open);
    UcsCheapest(open);
    UcsExpandAt(snake, start, target, open, m, visited, dist);
  }

  lemma UcsExpandAt(snake: seq<Cell>, start: Cell, target: Cell,
                    open: seq<UcsEntry>, m: nat, visited: set<Cell>, dist: map<Cell, nat>)
    requires m < |open| && CostsAreLengths(open)
    requires Frontier.Layered(snake, start, target, visited, dist, TrailView(UcsTrails(open)))
    requires Frontier.IsCheapest(TrailView(UcsTrails(open)), m)
    requires open[m].1 !in visited && open[m].1 != target
    ensures var e := open[m];
      var open' := Frontier.Remove(open, m) + UcsExtend(e.0, e.1, e.2, OpenDirections(e.1, snake, visited + {e.1}, 4));
      Frontier.Layered(snake, start, target, visited + {e.1}, dist[e.1 := e.0], TrailView(UcsTrails(open')))
  {
    var e := open[m];
    var view := TrailView(UcsTrails(open));
    var ds := OpenDirections(e.1, snake, visited + {e.1}, 4);
    assert view[m] == (e.1, e.0);
    UcsView(open, m, ds);
    ExpandAt(snake, start, target, visited, dist, view, m, e.1, e.0,
             TrailView(UcsTrails(Frontier.Remove(open, m) + UcsExtend(e.0, e.1, e.2, ds))));
  }

  /**
   * Expanding the cheapest entry m, at cell c after t moves, of a layered
   * frontier by the neighbour loop keeps it layered.
   */
  lemma ExpandAt(snake: seq<Cell>, start: Cell, target: Cell, visited: set<Cell>,
                 dist: map<Cell, nat>, view: seq<Frontier.Entry>, m: nat, c: Cell, t: nat,
                 view': seq<Frontier.Entry>)
    requires Frontier.Layered(snake, start, target, visited, dist, view)
    requires Frontier.IsCheapest(view, m) && view[m] == (c, t) && c !in visited && c != target
    requires view' == Frontier.Remove(view, m) + Frontier.Tag(Targets(c, OpenDirections(c, snake, visited + {c}, 4)), t + 1)
    ensures Frontier.Layered(snake, start, target, visited + {c}, dist[c := t], view')
  {
    PushedCells(c, snake, visited + {c});
    Frontier.Expand(snake, start, target, visited, dist, view, m, c, t,
                    Targets(c, OpenDirections(c, snake, visited + {c}, 4)), view');
  }

  /** The frontier view after popping entry m and pushing its extensions along ds. */
  lemma UcsView(open: seq<UcsEntry>, m: nat, ds: seq<Cell>)
    requires m < |open| && CostsAreLengths(open)
    ensures var e := open[m];
      TrailView(UcsTrails(Frontier.Remove(open, m) + UcsExtend(e.0, e.1, e.2, ds)))
        == Frontier.Remove(TrailView(UcsTrails(open)), m) + Frontier.Tag(Targets(e.1, ds), e.0 + 1)
  {
    var e := open[m];
    var rest := Frontier.Remove(open, m);
    var view := TrailView(UcsTrails(open));
    var lhs := TrailView(UcsTrails(rest + UcsExtend(e.0, e.1, e.2, ds)));
    var rhs := Frontier.Remove(view, m) + Frontier.Tag(Targets(e.1, ds), e.0 + 1);
    assert |lhs| == |rhs|;
    forall k | 0 <= k < |lhs| ensures lhs[k] == rhs[k] {
      if k < |rest| {
        if k < m { assert rest[k] == open[k]; } else { assert rest[k] == open[k + 1]; }
      }
    }
  }

  lemma UcsFound(snake: seq<Cell>, start: Cell, target: Cell, universe: set<Cell>,
                 open: seq<UcsEntry>, visited: set<Cell>, dist: map<Cell, nat>)
    requires UcsInv(snake, start, target, universe, open, visited, dist)
    requires open != [] && open[UcsMin(open)].1 == target
    ensures IsShortestPath([start] + open[UcsMin(open)].2, start, target, snake)
  {
    var m := UcsMin(open);
    var view := TrailView(UcsTrails(open));
    UcsCheapest(open);
    assert UcsTrails(open)[m] == (open[m].1, open[m].2);
    assert PathFromTo([start] + open[m].2, start, target, snake);
    forall q | PathFromTo(q, start, target, snake) ensures |[start] + open[m].2| <= |q| {
      Frontier.FoundIsShortest(snake, start, target, visited, dist, view, m, q);
    }
  }

  lemma UcsExhausted(snake: seq<Cell>, start: Cell, target: Cell, universe: set<Cell>,
                     visited: set<Cell>, dist: map<Cell, nat>)
    requires UcsInv(snake, start, target, universe, [], visited, dist)
    ensures !Reachable(start, target, snake)
  {
    assert TrailView(UcsTrails([])) == [];
    Frontier.Exhausted(snake, start, target, visited, dist);
  }

  /**
   * The neighbour loop of `Ucs`: for each direction in the fixed order, push
   * the neighbour at one more unit of cost, with the walk extended by it, when
   * it is on the board, off the body and not yet visited.  Specified by
   * `UcsExtend` over the directions that pass the test.
   */
  method PushUcs(open: seq<UcsEntry>, cost: nat, cell: Cell, trail: seq<Cell>, snake: seq<Cell>, visited: set<Cell>)
    returns (open': seq<UcsEntry>)
    ensures open' == open + UcsExtend(cost, cell, trail, OpenDirections(cell, snake, visited, 4))
  {
    open' := open;
    for i := 0 to 4
      invariant open' == open + UcsExtend(cost, cell, trail, OpenDirections(cell, snake, visited, i))
    {
      var d := Directions[i];
      var next := (cell.0 + d.0, cell.1 + d.1);
      UcsExtendAppend(cost, cell, trail, OpenDirections(cell, snake, visited, i), d);
      if 0 <= next.0 < GridWidth && 0 <= next.1 < GridHeight && next !in snake && next !in visited {
        open' := open' + [(cost + 1, next, trail + [next])];
      }
    }
  }

  /** The state of `Ucs` at the head of its loop: the heap and the marked cells. */
  type UcsState = (seq<UcsEntry>, set<Cell>)

  /**
   * One pass of the loop of `Ucs` that does not return: the least entry is
   * taken off; a marked cell is dropped, an unmarked one is marked and its
   * free unmarked neighbours are pushed at one more than its cost.
   */
  function UcsStep(snake: seq<Cell>, st: UcsState): UcsState
    requires st.0 != []
  {
    var m := UcsMin(st.0);
    var cost, c, p := st.0[m].0, st.0[m].1, st.0[m].2;
    var rest := Frontier.Remove(st.0, m);
    if c in st.1 then (rest, st.1)
    else (rest + UcsExtend(cost, c, p, OpenDirections(c, snake, st.1 + {c}, 4)), st.1 + {c})
  }

  /** The cell `Ucs` pops from a state. */
  function UcsPopped(st: UcsState): Cell
    requires st.0 != []
  {
    st.0[UcsMin(st.0)].1
  }

  lemma UcsStepCases(snake: seq<Cell>, st: UcsState)
    requires st.0 != []
    ensures var m := UcsMin(st.0);
      var c := st.0[m].1;
      && (c in st.1 ==> UcsStep(snake, st) == (Frontier.Remove(st.0, m), st.1))
      && (c !in st.1 ==>
            UcsStep(snake, st) == (Frontier.Remove(st.0, m) + UcsExtend(st.0[m].0, c, st.0[m].2, OpenDirections(c, snake, st.1 + {c}, 4)), st.1 + {c}))
  {
  }

  /**
   * The states of `Ucs` at every loop head with a non-empty heap, in order:
   * the first holds the origin alone at cost 0 with nothing marked, and each
   * next one is the step of the one before, which did not pop the food.
   */
  predicate UcsRun(snake: seq<Cell>, start: Cell, target: Cell, run: seq<UcsState>)
  {
    && run != [] && run[0] == ([(0, start, [])], {})
    && (forall k :: 0 <= k < |run| ==> run[k].0 != [])
    && (forall k :: 0 <= k < |run| - 1 ==> UcsPopped(run[k]) != target && run[k + 1] == UcsStep(snake, run[k]))
  }

  /** The search stops at a state that pops the food, or whose step empties the heap. */
  predicate UcsOver(snake: seq<Cell>, target: Cell, st: UcsState)
    requires st.0 != []
  {
    UcsPopped(st) == target || UcsStep(snake, st).0 == []
  }

  /** The cost popped at each state of a run. */
  function UcsPops(run: seq<UcsState>): (costs: seq<nat>)
    ensures |costs| == |run|
  {
    seq(|run|, k requires 0 <= k < |run| => if run[k].0 == [] then 0 else UcsPopCost(run[k]))
  }

  /** The cost of the entry `Ucs` pops from a state: the least in its heap. */
  function UcsPopCost(st: UcsState): nat
    requires st.0 != []
  {
    st.0[UcsMin(st.0)].0
  }

  /** Every entry a step leaves in the heap or pushes costs at least what it popped. */
  lemma UcsStepCostsNoLess(snake: seq<Cell>, st: UcsState)
    requires st.0 != []
    ensures forall e :: e in UcsStep(snake, st).0 ==> UcsPopCost(st) <= e.0
  {
    var m := UcsMin(st.0);
    forall k | 0 <= k < |st.0| ensures st.0[m].0 <= st.0[k].0 {
      assert !UcsBefore(st.0[k], st.0[m]);
    }
    Frontier.RemoveMembers(st.0, m);
  }

  /** A step keeps every heap entry's cost equal to the length of its walk. */
  lemma UcsStepCostsAreLengths(snake: seq<Cell>, st: UcsState)
    requires st.0 != [] && CostsAreLengths(st.0)
    ensures CostsAreLengths(UcsStep(snake, st).0)
  {
    var m := UcsMin(st.0);
    Frontier.RemoveMembers(st.0, m);
  }

  /** In every state of a run, every heap entry's cost is the number of moves of its walk. */
  lemma UcsRunCostsAreLengths(snake: seq<Cell>, start: Cell, target: Cell, run: seq<UcsState>)
    requires UcsRun(snake, start, target, run)
    ensures forall k :: 0 <= k < |run| ==> CostsAreLengths(run[k].0)
  {
    for k := 1 to |run|
      invariant forall i :: 0 <= i < k ==> CostsAreLengths(run[i].0)
    {
      assert run[k] == UcsStep(snake, run[k - 1]);
      UcsStepCostsAreLengths(snake, run[k - 1]);
    }
  }

  /** Along any run the costs popped never decrease. */
  lemma UcsRunPopsNonDecreasing(snake: seq<Cell>, start: Cell, target: Cell, run: seq<UcsState>)
    requires UcsRun(snake, start, target, run)
    ensures NonDecreasing(UcsPops(run))
  {
    var pops := UcsPops(run);
    forall k | 0 <= k < |run| - 1 ensures pops[k] <= pops[k + 1] {
      assert run[k + 1] == UcsStep(snake, run[k]);
      UcsStepCostsNoLess(snake, run[k]);
      assert run[k + 1].0[UcsMin(run[k + 1].0)] in run[k + 1].0;
    }
    AdjacentNonDecreasing(pops);
  }

  lemma {:induction false} AdjacentNonDecreasing(s: seq<nat>)
    requires forall k :: 0 <= k < |s| - 1 ==> s[k] <= s[k + 1]
    ensures NonDecreasing(s)
  {
    if |s| > 1 {
      var s' := s[..|s| - 1];
      assert forall k :: 0 <= k < |s'| ==> s'[k] == s[k];
      AdjacentNonDecreasing(s');
      assert forall i :: 0 <= i < |s| - 1 ==> s[i] <= s'[|s'| - 1] <= s[|s| - 1];
    }
  }

  /** The loop invariant of `Ucs` about its run: `st` is the state that follows the recorded ones. */
  predicate UcsRunSoFar(snake: seq<Cell>, start: Cell, target: Cell, run: seq<UcsState>, st: UcsState)
  {
    if run == [] then st == ([(0, start, [])], {})
    else (UcsRun(snake, start, target, run) && UcsPopped(run[|run| - 1]) != target
          && UcsStep(snake, run[|run| - 1]) == st)
  }

  lemma UcsRunAppend(snake: seq<Cell>, start: Cell, target: Cell, run: seq<UcsState>, st: UcsState)
    requires UcsRunSoFar(snake, start, target, run, st) && st.0 != []
    ensures UcsRun(snake, start, target, run + [st])
    ensures FrontierSizes(run + [st]) == FrontierSizes(run) + [|st.0|]
  {
  }

  /** No state of a run but its last is over. */
  lemma UcsRunOverOnlyAtEnd(snake: seq<Cell>, start: Cell, target: Cell, run: seq<UcsState>)
    requires UcsRun(snake, start, target, run)
    ensures forall k :: 0 <= k < |run| - 1 ==> !UcsOver(snake, target, run[k])
  {
    forall k | 0 <= k < |run| - 1 ensures !UcsOver(snake, target, run[k]) {
      assert run[k + 1] == UcsStep(snake, run[k]);
    }
  }

  /** A run that agrees with an over run up to that run's length goes no further. */
  lemma UcsRunStops(snake: seq<Cell>, start: Cell, target: Cell, r1: seq<UcsState>, r2: seq<UcsState>)
    requires UcsRun(snake, start, target, r1) && UcsOver(snake, target, r1[|r1| - 1])
    requires UcsRun(snake, start, target, r2) && |r1| <= |r2|
    requires forall i :: 0 <= i < |r1| ==> r1[i] == r2[i]
    ensures |r2| == |r1|
  {
    UcsRunOverOnlyAtEnd(snake, start, target, r2);
    assert r1[|r1| - 1] == r2[|r1| - 1];
  }

  /**
   * Two runs from the same origin that are both over are the same run, so the
   * metric and the order of the costs `Ucs` pops are determined by the body
   * and the food alone.
   */
  lemma UcsRunUnique(snake: seq<Cell>, start: Cell, target: Cell, r1: seq<UcsState>, r2: seq<UcsState>)
    requires UcsRun(snake, start, target, r1) && UcsOver(snake, target, r1[|r1| - 1])
    requires UcsRun(snake, start, target, r2) && UcsOver(snake, target, r2[|r2| - 1])
    ensures r1 == r2
  {
    var n := if |r1| < |r2| then |r1| else |r2|;
    for k := 1 to n
      invariant forall i :: 0 <= i < k ==> r1[i] == r2[i]
    {
      assert r1[k] == UcsStep(snake, r1[k - 1]) && r2[k] == UcsStep(snake, r2[k - 1]);
    }
    if |r1| <= |r2| {
      UcsRunStops(snake, start, target, r1, r2);
    } else {
      UcsRunStops(snake, start, target, r2, r1);
    }
  }

  /**
   * Uniform-cost search: the heap holds (cost, cell, walk) entries, the
   * cheapest is popped first and a cell is marked when popped.  Every cost
   * equals the length of its walk, so the costs popped never decrease and the
   * result is a shortest free path, the same length as the breadth-first one;
   * None is returned exactly when no free path reaches the food.
   */
  method Ucs(snake: seq<Cell>, food: Cell)
    returns (path: Option<seq<Cell>>, maxNodes: nat, ghost run: seq<UcsState>)
    requires |snake| > 0
    ensures path.Some? ==> IsShortestPath(path.value, snake[0], food, snake)
    ensures path.None? ==> !Reachable(snake[0], food, snake)
    ensures UcsRun(snake, snake[0], food, run) && UcsOver(snake, food, run[|run| - 1])
    ensures path.Some? <==> UcsPopped(run[|run| - 1]) == food
    ensures path.Some? ==> var last := run[|run| - 1].0; path.value == [snake[0]] + last[UcsMin(last)].2
    ensures maxNodes == MaxOf(FrontierSizes(run))
    ensures NonDecreasing(UcsPops(run))
  {
    var start := snake[0];
    var target := food;
    var openList: seq<UcsEntry> := [(0, start, [])];
    var visited: set<Cell> := {};
    maxNodes := 0;
    run := [];
    ghost var dist: map<Cell, nat> := map[];
    ghost var universe := BoardCells() + {start};
    UcsInitial(snake, start, target);
    while openList != []
      invariant UcsInv(snake, start, target, universe, openList, visited, dist)
      invariant UcsRunSoFar(snake, start, target, run, (openList, visited))
      invariant maxNodes == MaxOf(FrontierSizes(run))
      decreases universe - visited, |openList|
    {
      ghost var cur := (openList, visited);
      UcsRunAppend(snake, start, target, run, cur);
      MaxOfAppend(FrontierSizes(run), |openList|);
      run := run + [cur];
      maxNodes := Max(maxNodes, |openList|);
      ghost var before := openList;
      var m := UcsMin(openList);
      var cost, cell, trail := openList[m].0, openList[m].1, openList[m].2;
      openList := Frontier.Remove(openList, m);
      if cell == target {
        UcsFound(snake, start, target, universe, before, visited, dist);
        UcsRunPopsNonDecreasing(snake, start, target, run);
        path := Some([start] + trail);
        return;
      }
      UcsStepCases(snake, cur);
      if cell in visited {
        UcsSkip(snake, start, target, universe, before, visited, dist);
        continue;
      }
      UcsExpand(snake, start, target, universe, before, visited, dist);
      visited := visited + {cell};
      openList := PushUcs(openList, cost, cell, trail, snake, visited);
      dist := dist[cell := cost];
    }
    UcsExhausted(snake, start, target, universe, visited, dist);
    UcsRunPopsNonDecreasing(snake, start, target, run);
    path := None;
  }
}
