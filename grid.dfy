/** Option type for results that may be absent (a Python function returning None). */
module Wrappers {
  datatype Option<T> = None | Some(value: T)
}

/**
 * The board shared by the game and by every search strategy: the grid
 * dimensions derived from the window configuration, the four direction
 * vectors in their fixed enumeration order, the bounds-and-occupancy test,
 * the Manhattan heuristic, and what it means to be a free path.
 */
module Grid {

  // Window and cell configuration
  const Width: int := 600
  const Height: int := 400
  const CellSize: int := 20
  const Margin: int := 50

  // Number of cells across and down the board (integer floor division)
  const GridWidth: int := (Width - Margin) / CellSize
  const GridHeight: int := (Height - Margin) / CellSize

  /** A board position (x, y); x grows to the right, y grows downwards. */
  type Cell = (int, int)

  const Up: Cell := (0, -1)
  const Down: Cell := (0, 1)
  const Left: Cell := (-1, 0)
  const Right: Cell := (1, 0)

  /** The neighbour enumeration order every strategy uses. */
  const Directions: seq<Cell> := [Up, Down, Left, Right]

  lemma GridDimensions()
    ensures GridWidth == 27 && GridHeight == 17
    ensures GridWidth * GridHeight == 459
  {
  }

  function Step(c: Cell, d: Cell): Cell
  {
    (c.0 + d.0, c.1 + d.1)
  }

  /** The vector leading from a to b. */
  function Delta(a: Cell, b: Cell): Cell
  {
    (b.0 - a.0, b.1 - a.1)
  }

  predicate InBounds(c: Cell)
  {
    0 <= c.0 < GridWidth && 0 <= c.1 < GridHeight
  }

  /** A cell a search may step onto: inside the board and not covered by the body. */
  predicate Free(c: Cell, snake: seq<Cell>)
  {
    InBounds(c) && c !in snake
  }

  /** b is one of the four orthogonal neighbours of a. */
  predicate Adjacent(a: Cell, b: Cell)
  {
    Delta(a, b) in Directions
  }

  predicate FreeNeighbour(v: Cell, n: Cell, snake: seq<Cell>)
  {
    Adjacent(v, n) && Free(n, snake)
  }

  lemma StepIsAdjacent(c: Cell, k: nat)
    requires k < 4
    ensures Adjacent(c, Step(c, Directions[k]))
  {
    assert Delta(c, Step(c, Directions[k])) == Directions[k];
  }

  /** Every neighbour is reached by one of the four directions; returns its index. */
  lemma AdjacentIndex(a: Cell, b: Cell) returns (k: nat)
    requires Adjacent(a, b)
    ensures k < 4 && Step(a, Directions[k]) == b
  {
    var d := Delta(a, b);
    if d == Up { k := 0; } else if d == Down { k := 1; } else if d == Left { k := 2; } else { k := 3; }
  }

  /** Every cell of the board, as a finite set. */
  function BoardCells(): set<Cell>
  {
    set x: int, y: int | 0 <= x < GridWidth && 0 <= y < GridHeight :: (x, y)
  }

  lemma InBoard(c: Cell)
    requires InBounds(c)
    ensures c in BoardCells()
  {
    assert c == (c.0, c.1);
  }

  /** Python's tuple order on positions: by x, then by y; the tie-break of every heap. */
  predicate CellBefore(a: Cell, b: Cell)
  {
    a.0 < b.0 || (a.0 == b.0 && a.1 < b.1)
  }

  // ------------------------------------------------------------------
  // The heuristic shared by the strategies

  function Abs(z: int): nat
  {
    if z < 0 then -z else z
  }

  /** Manhattan distance. */
  function Heuristic(a: Cell, b: Cell): (r: nat)
    ensures r == 0 <==> a == b
  {
    Abs(a.0 - b.0) + Abs(a.1 - b.1)
  }

  lemma HeuristicSymmetric(a: Cell, b: Cell)
    ensures Heuristic(a, b) == Heuristic(b, a)
  {
  }

  /** The estimate changes by at most one across a single move (consistency). */
  lemma HeuristicConsistent(a: Cell, a': Cell, b: Cell)
    requires Adjacent(a, a')
    ensures Heuristic(a, b) <= Heuristic(a', b) + 1
    ensures Heuristic(a', b) <= Heuristic(a, b) + 1
  {
  }

  // ------------------------------------------------------------------
  // Paths

  /**
   * A sequence of cells in which each cell after the first is free and is an
   * orthogonal neighbour of its predecessor.  The first cell is the search
   * origin, the snake's head, which is itself part of the body.
   */
  predicate IsFreePath(p: seq<Cell>, snake: seq<Cell>)
  {
    && |p| >= 1
    && (forall i :: 1 <= i < |p| ==> Free(p[i], snake))
    && (forall i :: 0 <= i < |p| - 1 ==> Adjacent(p[i], p[i + 1]))
  }

  predicate PathFromTo(p: seq<Cell>, start: Cell, target: Cell, snake: seq<Cell>)
  {
    IsFreePath(p, snake) && p[0] == start && p[|p| - 1] == target
  }

  ghost predicate Reachable(start: Cell, target: Cell, snake: seq<Cell>)
  {
    exists p :: PathFromTo(p, start, target, snake)
  }

  /** p is a free path from start to target with the fewest cells of all such paths. */
  ghost predicate IsShortestPath(p: seq<Cell>, start: Cell, target: Cell, snake: seq<Cell>)
  {
    PathFromTo(p, start, target, snake) &&
    forall q :: PathFromTo(q, start, target, snake) ==> |p| <= |q|
  }

  /** No cell occurs twice. */
  predicate Distinct(p: seq<Cell>)
  {
    forall i, j :: 0 <= i < j < |p| ==> p[i] != p[j]
  }

  /** Two shortest paths between the same cells have the same number of cells. */
  lemma ShortestPathsAgree(p: seq<Cell>, q: seq<Cell>, start: Cell, target: Cell, snake: seq<Cell>)
    requires IsShortestPath(p, start, target, snake) && IsShortestPath(q, start, target, snake)
    ensures |p| == |q|
  {
  }

  /** A suffix of a free path is a free path. */
  lemma SuffixIsFreePath(p: seq<Cell>, i: nat, snake: seq<Cell>)
    requires IsFreePath(p, snake) && i < |p|
    ensures IsFreePath(p[i..], snake)
  {
    var s := p[i..];
    forall j | 1 <= j < |s| ensures Free(s[j], snake) {
      assert s[j] == p[i + j];
    }
    forall j | 0 <= j < |s| - 1 ensures Adjacent(s[j], s[j + 1]) {
      assert s[j] == p[i + j] && s[j + 1] == p[i + j + 1];
    }
  }

  /** Extending a free path by a free neighbour of its last cell gives a free path. */
  lemma ExtendFreePath(p: seq<Cell>, n: Cell, snake: seq<Cell>)
    requires IsFreePath(p, snake) && FreeNeighbour(p[|p| - 1], n, snake)
    ensures IsFreePath(p + [n], snake)
  {
    var s := p + [n];
    forall j | 1 <= j < |s| ensures Free(s[j], snake) {
      if j < |p| { assert s[j] == p[j]; }
    }
    forall j | 0 <= j < |s| - 1 ensures Adjacent(s[j], s[j + 1]) {
      if j + 1 < |p| { assert s[j] == p[j] && s[j + 1] == p[j + 1]; }
    }
  }

  /**
   * Admissibility: the Manhattan estimate from the origin of a free path to its
   * last cell never exceeds the number of moves of that path.
   */
  lemma {:induction false} HeuristicAdmissible(p: seq<Cell>, snake: seq<Cell>)
    requires IsFreePath(p, snake)
    ensures Heuristic(p[0], p[|p| - 1]) <= |p| - 1
    decreases |p|
  {
    if |p| > 1 {
      SuffixIsFreePath(p, 1, snake);
      HeuristicAdmissible(p[1..], snake);
      assert Adjacent(p[0], p[1]);
      HeuristicConsistent(p[0], p[1], p[|p| - 1]);
    }
  }

  // ------------------------------------------------------------------
  // The neighbour loop shared by the strategies

  /**
   * The directions, among the first k of the fixed order, that lead from c to a
   * cell inside the board, off the body and outside `visited`, in that order.
   */
  function OpenDirections(c: Cell, snake: seq<Cell>, visited: set<Cell>, k: nat): (ds: seq<Cell>)
    requires k <= 4
    ensures |ds| <= k
  {
    if k == 0 then []
    else
      var n := Step(c, Directions[k - 1]);
      OpenDirections(c, snake, visited, k - 1) + (if Free(n, snake) && n !in visited then [Directions[k - 1]] else [])
  }

  /** The cells reached from c by each direction of ds. */
  function Targets(c: Cell, ds: seq<Cell>): (ns: seq<Cell>)
    ensures |ns| == |ds|
  {
    seq(|ds|, k requires 0 <= k < |ds| => Step(c, ds[k]))
  }

  /** The neighbour loop visits exactly the free, unvisited neighbours. */
  lemma {:induction false} OpenDirectionsSpec(c: Cell, snake: seq<Cell>, visited: set<Cell>, k: nat)
    requires k <= 4
    ensures forall d :: d in OpenDirections(c, snake, visited, k) ==>
      d in Directions[..k] && Free(Step(c, d), snake) && Step(c, d) !in visited
    ensures forall j :: 0 <= j < k && Free(Step(c, Directions[j]), snake) && Step(c, Directions[j]) !in visited ==>
      Directions[j] in OpenDirections(c, snake, visited, k)
  {
    if k > 0 {
      OpenDirectionsSpec(c, snake, visited, k - 1);
      assert Directions[..k] == Directions[..k - 1] + [Directions[k - 1]];
    }
  }

  /** The cells the neighbour loop pushes are exactly the free neighbours outside `visited`. */
  lemma PushedCells(c: Cell, snake: seq<Cell>, visited: set<Cell>)
    ensures forall n :: n in Targets(c, OpenDirections(c, snake, visited, 4)) <==>
      FreeNeighbour(c, n, snake) && n !in visited
  {
    var ds := OpenDirections(c, snake, visited, 4);
    OpenDirectionsSpec(c, snake, visited, 4);
    assert Directions[..4] == Directions;
    forall n ensures n in Targets(c, ds) <==> FreeNeighbour(c, n, snake) && n !in visited {
      if n in Targets(c, ds) {
        var k :| 0 <= k < |ds| && Targets(c, ds)[k] == n;
        assert ds[k] in ds;
        assert Delta(c, n) == ds[k];
      }
      if FreeNeighbour(c, n, snake) && n !in visited {
        var j := AdjacentIndex(c, n);
        var k :| 0 <= k < |ds| && ds[k] == Directions[j];
        assert Targets(c, ds)[k] == n;
      }
    }
  }

  /**
   * The frontier length at each state of a search run, where a state pairs
   * the frontier with the cells marked so far: the lengths the metric is the
   * largest of.
   */
  function FrontierSizes<E, M>(run: seq<(seq<E>, M)>): (sizes: seq<nat>)
    ensures |sizes| == |run|
  {
    seq(|run|, k requires 0 <= k < |run| => |run[k].0|)
  }

  /** Largest element of a sequence of frontier sizes, 0 for none. */
  function MaxOf(s: seq<nat>): (m: nat)
    ensures forall k :: 0 <= k < |s| ==> s[k] <= m
    ensures s != [] ==> m in s
    ensures s == [] ==> m == 0
  {
    if s == [] then 0
    else
      var m' := MaxOf(s[..|s| - 1]);
      assert forall k :: 0 <= k < |s| - 1 ==> s[k] == s[..|s| - 1][k];
      assert m' != 0 ==> m' in s;
      if s[|s| - 1] > m' then s[|s| - 1] else m'
  }

  function Max(a: nat, b: nat): nat
  {
    if a < b then b else a
  }

  lemma MaxOfAppend(s: seq<nat>, x: nat)
    ensures MaxOf(s + [x]) == Max(MaxOf(s), x)
  {
    assert (s + [x])[..|s|] == s;
  }
}
