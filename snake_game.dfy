/**
 * The game state and its transition: the snake's body (head first), its
 * direction of travel, the food, the score and the game-over flag.  Food is
 * placed by drawing random board cells until one lands off the body; the
 * draws of the random number generator are a parameter here.
 */
module Game {
  import opened Grid

  /** The head's cell at the start of a game: the middle of the board. */
  const StartCell: Cell := (GridWidth / 2, GridHeight / 2)

  /** The draws of the random number generator: board cells, as `random.randint` over each axis gives. */
  predicate OnBoard(draws: seq<Cell>)
  {
    forall k :: 0 <= k < |draws| ==> InBounds(draws[k])
  }

  /** Some draw lands off the body, so the food placement loop ends. */
  predicate SomeDrawFree(draws: seq<Cell>, body: seq<Cell>)
  {
    exists k :: 0 <= k < |draws| && draws[k] !in body
  }

  /** The index of the draw the food placement loop keeps: the first one off the body. */
  function FirstFree(draws: seq<Cell>, body: seq<Cell>): (r: nat)
    requires SomeDrawFree(draws, body)
    ensures r < |draws| && draws[r] !in body
    ensures forall j :: 0 <= j < r ==> draws[j] in body
  {
    if draws[0] !in body then 0
    else
      assert SomeDrawFree(draws[1..], body) by {
        var k :| 0 <= k < |draws| && draws[k] !in body;
        assert draws[1..][k - 1] == draws[k];
      }
      1 + FirstFree(draws[1..], body)
  }

  /** A head at newHead ends the game: it left the board or lies on the rest of the body. */
  predicate Collides(newHead: Cell, body: seq<Cell>)
  {
    !InBounds(newHead) || (|body| > 0 && newHead in body[1..])
  }

  class SnakeGame {
    var snake: seq<Cell>
    var direction: Cell
    var food: Cell
    var score: int
    var gameOver: bool

    /** The body is never empty, and the food lies on the board and off the body. */
    ghost predicate Valid()
      reads this
    {
      |snake| > 0 && InBounds(food) && food !in snake
    }

    /** A new game: a one-cell snake in the middle heading right, food from the first free draw. */
    constructor (draws: seq<Cell>)
      requires OnBoard(draws) && SomeDrawFree(draws, [StartCell])
      ensures Valid()
      ensures snake == [StartCell] && direction == Right && score == 0 && !gameOver
      ensures food == draws[FirstFree(draws, [StartCell])]
    {
      snake := [StartCell];
      direction := Right;
      new;
      food := GenerateFood(draws);
      score := 0;
      gameOver := false;
    }

    /**
     * Food placement: take the draws in order until one is off the body.
     * The result is the first such draw, so a board cell not on the body.
     */
    method GenerateFood(draws: seq<Cell>) returns (cell: Cell)
      requires OnBoard(draws) && SomeDrawFree(draws, snake)
      ensures InBounds(cell) && cell !in snake
      ensures cell == draws[FirstFree(draws, snake)]
    {
      ghost var k := FirstFree(draws, snake);
      var i := 0;
      while true
        invariant i <= k
        invariant forall j :: 0 <= j < i ==> draws[j] in snake
        decreases k - i
      {
        var candidate := draws[i];
        if candidate !in snake {
          return candidate;
        }
        i := i + 1;
      }
    }

    /**
     * One tick: the head moves one cell along the direction.  On the food the
     * body grows by that cell, new food is placed and the score goes up by
     * one; otherwise the last cell is dropped.  The game is over, for good,
     * once the new head is off the board or on the rest of the new body, so
     * moving into the cell the tail has just left is no collision.
     */
    method Move(draws: seq<Cell>)
      requires Valid()
      requires Step(snake[0], direction) == food ==>
        OnBoard(draws) && SomeDrawFree(draws, [Step(snake[0], direction)] + snake)
      modifies this
      ensures Valid()
      ensures direction == old(direction)
      ensures var newHead := Step(old(snake)[0], old(direction));
        && (newHead == old(food) ==>
              && snake == [newHead] + old(snake)
              && score == old(score) + 1
              && food == draws[FirstFree(draws, snake)])
        && (newHead != old(food) ==>
              && snake == [newHead] + old(snake)[..|old(snake)| - 1]
              && score == old(score)
              && food == old(food))
        && gameOver == (old(gameOver) || Collides(newHead, snake))
    {
      var newHead := (snake[0].0 + direction.0, snake[0].1 + direction.1);
      if newHead == food {
        snake := [newHead] + snake;
        food := GenerateFood(draws);
        score := score + 1;
      } else {
        snake := [newHead] + snake;
        snake := snake[..|snake| - 1];
      }
      if newHead.0 < 0 || newHead.0 >= GridWidth || newHead.1 < 0 || newHead.1 >= GridHeight || newHead in snake[1..] {
        gameOver := true;
      }
    }
  }

  /**
   * Stepping onto a free cell, the first move of any path a search returns,
   * never ends the game, whether the snake grows there or not.
   */
  lemma FreeStepIsSafe(body: seq<Cell>, newHead: Cell)
    requires |body| > 0 && Free(newHead, body)
    ensures !Collides(newHead, [newHead] + body)
    ensures !Collides(newHead, [newHead] + body[..|body| - 1])
  {
    assert ([newHead] + body)[1..] == body;
    assert ([newHead] + body[..|body| - 1])[1..] == body[..|body| - 1];
  }

  /**
   * Following the tail: a head moving into the cell the tail occupies, and
   * nowhere else on the body, is safe when the tail moves away (no food there),
   * and would collide were the body to grow.
   */
  lemma TailChase(body: seq<Cell>, newHead: Cell)
    requires |body| >= 2 && InBounds(newHead)
    requires newHead == body[|body| - 1] && newHead !in body[..|body| - 1]
    ensures !Collides(newHead, [newHead] + body[..|body| - 1])
    ensures Collides(newHead, [newHead] + body)
  {
    assert ([newHead] + body[..|body| - 1])[1..] == body[..|body| - 1];
    assert ([newHead] + body)[1..] == body;
    assert body[|body| - 1] in body;
  }
}

/**
 * The game's own breadth-first search, which answers with the list of moves
 * (direction vectors) from the head to the food rather than the cells.  A
 * cell is marked when taken off the queue; neighbours are queued whenever
 * they are on the board and off the body.
 */
module SnakeSearch {
  import opened Wrappers
  import opened Grid
  import Frontier
  import SnakeAI

  /** The cells passed by applying the moves ds in order from c, c included. */
  function Trace(c: Cell, ds: seq<Cell>): (r: seq<Cell>)
    ensures |r| == |ds| + 1 && r[0] == c
  {
    if ds == [] then [c]
    else
      var t := Trace(c, ds[..|ds| - 1]);
      t + [Step(t[|t| - 1], ds[|ds| - 1])]
  }

  lemma TraceAppend(c: Cell, ds: seq<Cell>, d: Cell)
    ensures Trace(c, ds + [d]) == Trace(c, ds) + [Step(Trace(c, ds)[|ds|], d)]
  {
    assert (ds + [d])[..|ds|] == ds;
  }

  /** Each move of ds is one of the four directions. */
  predicate AreDirections(ds: seq<Cell>)
  {
    forall k :: 0 <= k < |ds| ==> ds[k] in Directions
  }

  /** Each entry's moves, applied from the origin, lead over free cells to the entry's cell. */
  predicate MovesValid(q: seq<SnakeAI.Trail>, start: Cell, snake: seq<Cell>)
  {
    forall k :: 0 <= k < |q| ==> PathFromTo(Trace(start, q[k].1), start, q[k].0, snake) && AreDirections(q[k].1)
  }

  /** The entries the neighbour loop appends for cell c, reached by the moves p, along directions ds. */
  function ExtendMoves(c: Cell, p: seq<Cell>, ds: seq<Cell>): (r: seq<SnakeAI.Trail>)
    ensures |r| == |ds|
  {
    seq(|ds|, k requires 0 <= k < |ds| => (Step(c, ds[k]), p + [ds[k]]))
  }

  lemma ExtendMovesAppend(c: Cell, p: seq<Cell>, ds: seq<Cell>, d: Cell)
    ensures ExtendMoves(c, p, ds + [d]) == ExtendMoves(c, p, ds) + [(Step(c, d), p + [d])]
  {
  }

  lemma MovesViewAppend(rest: seq<SnakeAI.Trail>, c: Cell, p: seq<Cell>, ds: seq<Cell>)
    ensures SnakeAI.TrailView(rest + ExtendMoves(c, p, ds))
         == SnakeAI.TrailView(rest) + Frontier.Tag(Targets(c, ds), |p| + 1)
  {
  }

  /** One more move along a free direction extends a valid move list. */
  lemma ExtendOneMove(snake: seq<Cell>, start: Cell, cell: Cell, moves: seq<Cell>, d: Cell)
    requires PathFromTo(Trace(start, moves), start, cell, snake) && AreDirections(moves)
    requires d in Directions && Free(Step(cell, d), snake)
    ensures PathFromTo(Trace(start, moves + [d]), start, Step(cell, d), snake) && AreDirections(moves + [d])
  {
    var n := Step(cell, d);
    assert Delta(cell, n) == d;
    TraceAppend(start, moves, d);
    ExtendFreePath(Trace(start, moves), n, snake);
  }

  /** The entries one expansion appends are valid move lists to cells on the board. */
  lemma ExtendMovesValid(snake: seq<Cell>, start: Cell, universe: set<Cell>, cell: Cell, moves: seq<Cell>,
                          rest: seq<SnakeAI.Trail>)
    requires PathFromTo(Trace(start, moves), start, cell, snake) && AreDirections(moves)
    requires MovesValid(rest, start, snake)
    requires BoardCells() <= universe && forall k :: 0 <= k < |rest| ==> rest[k].0 in universe
    ensures var q := rest + ExtendMoves(cell, moves, OpenDirections(cell, snake, {}, 4));
      && MovesValid(q, start, snake)
      && forall k :: 0 <= k < |q| ==> q[k].0 in universe
  {
    var ds := OpenDirections(cell, snake, {}, 4);
    var ext := ExtendMoves(cell, moves, ds);
    var q := rest + ext;
    OpenDirectionsSpec(cell, snake, {}, 4);
    forall k | 0 <= k < |ext| ensures PathFromTo(Trace(start, ext[k].1), start, ext[k].0, snake) && AreDirections(ext[k].1) {
      assert ds[k] in ds;
      ExtendOneMove(snake, start, cell, moves, ds[k]);
    }
    forall k | 0 <= k < |q| ensures PathFromTo(Trace(start, q[k].1), start, q[k].0, snake) && AreDirections(q[k].1) {
      if k >= |rest| { assert q[k] == ext[k - |rest|]; } else { assert q[k] == rest[k]; }
    }
    forall k | 0 <= k < |q| ensures q[k].0 in universe {
      if k >= |rest| {
        assert q[k] == ext[k - |rest|];
        assert ds[k - |rest|] in ds;
        InBoard(Step(cell, ds[k - |rest|]));
      } else {
        assert q[k] == rest[k];
      }
    }
  }

  /** The loop invariant of `Bfs`. */
  ghost predicate SearchInv(snake: seq<Cell>, start: Cell, target: Cell, universe: set<Cell>,
                            queue: seq<SnakeAI.Trail>, visited: set<Cell>, dist: map<Cell, nat>)
  {
    && visited <= universe
    && (forall k :: 0 <= k < |queue| ==> queue[k].0 in universe)
    && MovesValid(queue, start, snake)
    && Frontier.Layered(snake, start, target, visited, dist, SnakeAI.TrailView(queue))
    && SnakeAI.LevelOrder(SnakeAI.TrailView(queue))
  }

  lemma SearchInitial(snake: seq<Cell>, start: Cell, target: Cell)
    ensures SearchInv(snake, start, target, BoardCells() + {start}, [(start, [])], {}, map[])
  {
    Frontier.Initial(snake, start, target);
    assert SnakeAI.TrailView([(start, [])]) == [(start, 0)];
  }

  lemma SearchSkip(snake: seq<Cell>, start: Cell, target: Cell, universe: set<Cell>,
                   queue: seq<SnakeAI.Trail>, visited: set<Cell>, dist: map<Cell, nat>)
    requires SearchInv(snake, start, target, universe, queue, visited, dist)
    requires queue != [] && queue[0].0 in visited
    ensures SearchInv(snake, start, target, universe, queue[1..], visited, dist)
  {
    var view := SnakeAI.TrailView(queue);
    SnakeAI.LevelOrderFront(view);
    SnakeAI.TrailViewTail(queue);
    Frontier.SkipFirst(snake, start, target, visited, dist, view, SnakeAI.TrailView(queue[1..]));
    SnakeAI.LevelOrderTail(view, SnakeAI.TrailView(queue[1..]));
  }

  lemma SearchExpand(snake: seq<Cell>, start: Cell, target: Cell, universe: set<Cell>,
                     queue: seq<SnakeAI.Trail>, visited: set<Cell>, dist: map<Cell, nat>)
    requires SearchInv(snake, start, target, universe, queue, visited, dist)
    requires universe == BoardCells() + {start}
    requires queue != [] && queue[0].0 !in visited && queue[0].0 != target
    ensures var c, p := queue[0].0, queue[0].1;
      SearchInv(snake, start, target, universe,
                queue[1..] + ExtendMoves(c, p, OpenDirections(c, snake, {}, 4)),
                visited + {c}, dist[c := |p|])
  {
    var c, p := queue[0].0, queue[0].1;
    assert PathFromTo(Trace(start, p), start, c, snake) && AreDirections(p);
    ExtendMovesValid(snake, start, universe, c, p, queue[1..]);
    SearchExpandFrontier(snake, start, target, queue, visited, dist);
    OrderAfterExpand(queue, c, p, OpenDirections(c, snake, {}, 4));
  }

  lemma SearchExpandFrontier(snake: seq<Cell>, start: Cell, target: Cell,
                             queue: seq<SnakeAI.Trail>, visited: set<Cell>, dist: map<Cell, nat>)
    requires Frontier.Layered(snake, start, target, visited, dist, SnakeAI.TrailView(queue))
    requires SnakeAI.LevelOrder(SnakeAI.TrailView(queue))
    requires queue != [] && queue[0].0 !in visited && queue[0].0 != target
    ensures var c, p := queue[0].0, queue[0].1;
      var queue' := queue[1..] + ExtendMoves(c, p, OpenDirections(c, snake, {}, 4));
      Frontier.Layered(snake, start, target, visited + {c}, dist[c := |p|], SnakeAI.TrailView(queue'))
  {
    var c, p := queue[0].0, queue[0].1;
    var view := SnakeAI.TrailView(queue);
    var pushed := Targets(c, OpenDirections(c, snake, {}, 4));
    FrontAfterExpand(queue, c, p, OpenDirections(c, snake, {}, 4));
    SnakeAI.LevelOrderFront(view);
    AllNeighboursPushed(c, snake, visited, pushed);
    Frontier.Expand(snake, start, target, visited, dist, view, 0, c, |p|, pushed,
                    SnakeAI.TrailView(queue[1..] + ExtendMoves(c, p, OpenDirections(c, snake, {}, 4))));
  }

  /** An expansion keeps the queue in level order. */
  lemma OrderAfterExpand(queue: seq<SnakeAI.Trail>, c: Cell, p: seq<Cell>, ds: seq<Cell>)
    requires SnakeAI.LevelOrder(SnakeAI.TrailView(queue))
    requires queue != [] && queue[0] == (c, p)
    ensures SnakeAI.LevelOrder(SnakeAI.TrailView(queue[1..] + ExtendMoves(c, p, ds)))
  {
    FrontAfterExpand(queue, c, p, ds);
    SnakeAI.LevelOrderPush(SnakeAI.TrailView(queue), Targets(c, ds),
                           SnakeAI.TrailView(queue[1..] + ExtendMoves(c, p, ds)));
  }

  /** The frontier after an expansion: the front entry gone, the pushed cells one move further at the back. */
  lemma FrontAfterExpand(queue: seq<SnakeAI.Trail>, c: Cell, p: seq<Cell>, ds: seq<Cell>)
    requires queue != [] && queue[0] == (c, p)
    ensures SnakeAI.TrailView(queue)[0] == (c, |p|)
    ensures SnakeAI.TrailView(queue[1..] + ExtendMoves(c, p, ds))
         == Frontier.Remove(SnakeAI.TrailView(queue), 0) + Frontier.Tag(Targets(c, ds), |p| + 1)
  {
    SnakeAI.TrailViewTail(queue);
    MovesViewAppend(queue[1..], c, p, ds);
  }

  /** The game's neighbour loop pushes every free neighbour, marked or not. */
  lemma AllNeighboursPushed(c: Cell, snake: seq<Cell>, visited: set<Cell>, pushed: seq<Cell>)
    requires pushed == Targets(c, OpenDirections(c, snake, {}, 4))
    ensures forall n :: n in pushed ==> FreeNeighbour(c, n, snake)
    ensures forall n :: FreeNeighbour(c, n, snake) && n !in visited + {c} ==> n in pushed
  {
    PushedCells(c, snake, {});
  }

  lemma SearchFound(snake: seq<Cell>, start: Cell, target: Cell, universe: set<Cell>,
                    queue: seq<SnakeAI.Trail>, visited: set<Cell>, dist: map<Cell, nat>)
    requires SearchInv(snake, start, target, universe, queue, visited, dist)
    requires queue != [] && queue[0].0 == target
    ensures AreDirections(queue[0].1) && IsShortestPath(Trace(start, queue[0].1), start, target, snake)
  {
    var view := SnakeAI.TrailView(queue);
    SnakeAI.LevelOrderFront(view);
    assert PathFromTo(Trace(start, queue[0].1), start, target, snake) && AreDirections(queue[0].1);
    forall q | PathFromTo(q, start, target, snake) ensures |Trace(start, queue[0].1)| <= |q| {
      Frontier.FoundIsShortest(snake, start, target, visited, dist, view, 0, q);
    }
  }

  lemma SearchExhausted(snake: seq<Cell>, start: Cell, target: Cell, universe: set<Cell>,
                        visited: set<Cell>, dist: map<Cell, nat>)
    requires SearchInv(snake, start, target, universe, [], visited, dist)
    ensures !Reachable(start, target, snake)
  {
    assert SnakeAI.TrailView([]) == [];
    Frontier.Exhausted(snake, start, target, visited, dist);
  }

  /**
   * The neighbour loop of `Bfs`: for each direction in the fixed order, append
   * the neighbour, with the move list extended by that direction, when it is
   * on the board and off the body.  Specified by `ExtendMoves` over the
   * directions that pass the test.
   */
  method PushMoves(queue: seq<SnakeAI.Trail>, cell: Cell, moves: seq<Cell>, snake: seq<Cell>)
    returns (queue': seq<SnakeAI.Trail>)
    ensures queue' == queue + ExtendMoves(cell, moves, OpenDirections(cell, snake, {}, 4))
  {
    queue' := queue;
    for i := 0 to 4
      invariant queue' == queue + ExtendMoves(cell, moves, OpenDirections(cell, snake, {}, i))
    {
      var d := Directions[i];
      var next := (cell.0 + d.0, cell.1 + d.1);
      ExtendMovesAppend(cell, moves, OpenDirections(cell, snake, {}, i), d);
      if 0 <= next.0 < GridWidth && 0 <= next.1 < GridHeight && next !in snake {
        queue' := queue' + [(next, moves + [d])];
      }
    }
  }

  /**
   * Breadth-first search answering with moves.  The moves returned are
   * direction vectors which, applied in order from the head, pass only over
   * free cells and end at the food, in the fewest moves possible; None is
   * returned exactly when the food cannot be reached.
   */
  method Bfs(snake: seq<Cell>, food: Cell) returns (moves: Option<seq<Cell>>)
    requires |snake| > 0
    ensures moves.Some? ==> AreDirections(moves.value)
    ensures moves.Some? ==> IsShortestPath(Trace(snake[0], moves.value), snake[0], food, snake)
    ensures moves.None? ==> !Reachable(snake[0], food, snake)
  {
    var start := snake[0];
    var target := food;
    var queue: seq<SnakeAI.Trail> := [(start, [])];
    var visited: set<Cell> := {};
    ghost var dist: map<Cell, nat> := map[];
    ghost var universe := BoardCells() + {start};
    SearchInitial(snake, start, target);
    while queue != []
      invariant SearchInv(snake, start, target, universe, queue, visited, dist)
      decreases universe - visited, |queue|
    {
      ghost var before := queue;
      var cell, path := queue[0].0, queue[0].1;
      queue := queue[1..];
      if cell == target {
        SearchFound(snake, start, target, universe, before, visited, dist);
        return Some(path);
      }
      if cell in visited {
        SearchSkip(snake, start, target, universe, before, visited, dist);
        continue;
      }
      SearchExpand(snake, start, target, universe, before, visited, dist);
      visited := visited + {cell};
      queue := PushMoves(queue, cell, path, snake);
      dist := dist[cell := |path|];
    }
    SearchExhausted(snake, start, target, universe, visited, dist);
    return None;
  }

  /** When the head is on the food the search answers with no moves at all. */
  lemma AtFoodNoMoves(snake: seq<Cell>, moves: Option<seq<Cell>>)
    requires |snake| > 0
    requires moves.Some? ==> IsShortestPath(Trace(snake[0], moves.value), snake[0], snake[0], snake)
    requires moves.None? ==> !Reachable(snake[0], snake[0], snake)
    ensures moves == Some([])
  {
    assert PathFromTo([snake[0]], snake[0], snake[0], snake);
  }
}
