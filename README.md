# Snake pathfinding engine, modelled in Dafny

This project models the path-finding core of a snake-game agent benchmark.
The snake lives on a 27 × 17 board. Four search strategies take the snake's
body and the food cell and return a path from the head to the food:
breadth-first search, A*, uniform-cost search and iterative deepening.
Each also returns the largest frontier length it saw. The project also
models the game state that feeds these searches: the one-tick move of the
snake, the food placement loop, and the game's own older breadth-first
search, which answers with a list of direction vectors.

Layout, one module per component:

- `grid.dfy`: module `Grid` holds the board constants, the four directions
  in their fixed order `Up, Down, Left, Right`, the bounds-and-body test, the
  Manhattan heuristic, free paths and shortest paths, the neighbour loop
  shared by all strategies, and the frontier metric `MaxOf`. Module
  `Wrappers` holds `Option`, which models Python's `None`.
- `frontier.dfy`: module `Frontier` holds the invariant shared by the
  searches that mark a cell when they pop it and carry the walk on each
  frontier entry. From that invariant follow both halves of their contract:
  the path found is shortest, and an empty frontier means the food cannot be
  reached.
- `snake_ai.dfy`: module `SnakeAI` holds breadth-first search and
  uniform-cost search. It also holds Python's tuple and list order, which
  `heapq` uses to pick the entry it pops.
- `a_star.dfy`: module `AStarSearch` holds A* with its `g_score` and
  `came_from` maps, and the reconstruction of the path.
- `iter_deepening.dfy`: module `IterDeepening` holds the depth-limited passes
  and the metric taken over all passes.
- `snake_game.dfy`: module `Game` holds the class `SnakeGame` (`Move`,
  `GenerateFood`). Module `SnakeSearch` holds the game's own breadth-first
  search, which answers with moves.

Every search method mirrors its Python loop: the same pops, pushes and
`visited` updates, in the same neighbour order. Each of the four strategies
(`SnakeAI.Bfs`, `SnakeAI.Ucs`, `AStarSearch.AStar` and
`IterDeepening.IterativeDeepening`) also returns its run as a ghost value.
The run is the state at every head of the main loop where the frontier is
not empty. The first state is the start of the search. Each next state is
the result of a step function applied to the state before it, and that step
function restates one pass of the loop body. The run ends where the food is
popped or where the next step would leave the frontier empty. The metric is
stated against that run: `maxNodes` is the largest frontier length over its
states. Each of the four has a uniqueness lemma (`SnakeAI.BfsRunUnique`,
`SnakeAI.UcsRunUnique`, `AStarSearch.AStarRunUnique`,
`IterDeepening.IdsRunUnique`) showing that two such runs are equal. So the
metric is a function of the body and the food alone, and a method cannot
meet its contract with any other metric. The game's own search,
`SnakeSearch.Bfs`, computes no metric and returns no run: its contract
states only that the moves it returns spell a shortest free path to the
food, and that it returns nothing exactly when no free path exists. Python's
unbounded integers need no wrap-around.

On the marking of cells, the model does exactly what the code does:
- `bfs` and `ucs`: a popped cell that is not the food is skipped if it is
  already marked, and is marked otherwise (snake_search.py:24-31, 100-107).
- `iter_deepening`: a popped cell that is not the food is marked only when
  its depth is below the limit. A cell popped again is not skipped; it is
  marked and expanded again (snake_search.py:133-142).
- All three push only neighbours that are not marked
  (snake_search.py:38, 112, 148).
- `a_star`: a popped cell that is not the food is skipped if it is already
  marked, and is marked otherwise. A neighbour is pushed whenever its score
  improves, whether it is marked or not (snake_search.py:57-83).

The metric is always at least 1, because the first loop head sees the origin
alone.

## Model

| member | source | states |
|---|---|---|
| `Grid.GridDimensions` | snake_game.py:8-12 | with a 600 × 400 window, 20-pixel cells and a 50-pixel margin, the board is 27 × 17 cells (459 in all) |
| `Grid.Heuristic` | snake_search.py:7-9 | the Manhattan distance is a natural number and is 0 exactly when the two cells are equal |
| `Grid.HeuristicSymmetric` | snake_search.py:7-9 | the heuristic is symmetric |
| `Grid.HeuristicConsistent` | snake_search.py:7-9 | between orthogonal neighbours the heuristic changes by at most 1 |
| `Grid.HeuristicAdmissible` | snake_search.py:7-9 | along any free path, the heuristic from its first to its last cell is at most the number of moves, so it never overestimates |
| `Grid.PushedCells` | snake_search.py:34-39 | the neighbour loop pushes exactly the neighbours that are on the board, off the body and not visited |
| `Grid.OpenDirectionsSpec` | snake_search.py:34-38 | the directions the neighbour loop takes are among the first k of `UP, DOWN, LEFT, RIGHT`, and each passes the bounds, body and visited test; every direction that passes is taken |
| `Grid.ShortestPathsAgree` | snake_search.py:87-115 | two shortest free paths between the same cells have equal length, so `ucs`, `a_star` and `bfs` return paths of the same length |
| `Grid.MaxOf` | snake_search.py:21 | the metric is the largest of the frontier lengths observed, and is one of them |
| `Frontier.FoundIsShortest` | snake_search.py:19-26 | when the cheapest frontier entry is at the food, no free path to the food has fewer moves |
| `Frontier.Exhausted` | snake_search.py:19-40 | once the frontier is empty, no free path leads from the head to the food |
| `Frontier.Expand` | snake_search.py:28-39 | marking the cheapest entry's cell and pushing its free, unmarked neighbours one move further keeps the frontier invariant |
| `SnakeAI.PushTrails` | snake_search.py:34-39 | the neighbour loop of `bfs` appends, in direction order, each free unvisited neighbour with the walk extended by it |
| `SnakeAI.Bfs` | snake_search.py:11-40 | a returned path starts at the head, ends at the food, moves one direction at a time over free cells, and has the fewest cells of any such path; `None` comes back exactly when no free path reaches the food; the ghost run starts from the head alone, steps by `BfsStep` (pop the front, skip it if marked, otherwise mark it and append its free unmarked neighbours) and ends where the food is popped or the queue empties; the result is `Some` exactly when the food is popped, and is then `[head]` plus that entry's walk; the metric is the largest queue length over the run |
| `SnakeAI.BfsRunUnique` | snake_search.py:19-39 | two runs of the loop from the same head that have both ended are equal, so the queue lengths and the metric are determined by the body and the food |
| `SnakeAI.AtFoodPathIsHead` | snake_search.py:12-26 | when the head is on the food, a result meeting the search contract is the one-cell path `[head]` |
| `SnakeAI.UcsMin` | snake_search.py:99 | `heappop` removes an entry that no other entry precedes in Python's order on `(cost, (x, y), path)` |
| `SnakeAI.UcsMinimumIsUnique` | snake_search.py:99 | two entries neither of which precedes the other are equal, so the popped entry is determined |
| `SnakeAI.PathBeforeTransitive` | snake_search.py:99 | Python's list order on walks is transitive |
| `SnakeAI.PathBeforeTotal` | snake_search.py:99 | Python's list order on walks is total |
| `SnakeAI.UcsStepCostsNoLess` | snake_search.py:97-114 | the cost popped is the least in the heap, so every entry a step leaves in the heap or pushes costs at least as much |
| `SnakeAI.UcsRunPopsNonDecreasing` | snake_search.py:95-114 | along any run of the loop, the costs popped never decrease |
| `SnakeAI.UcsRunCostsAreLengths` | snake_search.py:91-114 | in every state of a run, each heap entry's cost equals the number of moves of its walk |
| `SnakeAI.PushUcs` | snake_search.py:109-114 | the neighbour loop of `ucs` pushes each free unvisited neighbour at one more unit of cost with the walk extended by it |
| `SnakeAI.Ucs` | snake_search.py:87-115 | a returned path is a shortest free path from the head to the food; `None` exactly when unreachable; the ghost run starts from the head at cost 0, steps by `UcsStep` (pop the least entry in Python's order, skip it if marked, otherwise mark it and push its free unmarked neighbours at one more unit of cost) and ends where the food is popped or the heap empties; `Some` exactly when the food is popped, and then `[head]` plus that entry's walk; the costs popped along the run never decrease; the metric is the largest heap length over the run |
| `SnakeAI.UcsRunUnique` | snake_search.py:95-114 | two runs of the loop from the same head that have both ended are equal, so the heap lengths, the costs popped and the metric are determined by the body and the food |
| `AStarSearch.HeapMin` | snake_search.py:55 | `heappop` removes an entry that no other `(f, (x, y))` entry precedes |
| `AStarSearch.HeapMinIsLeast` | snake_search.py:55 | the popped entry has the least f-score in the heap |
| `AStarSearch.RelaxNeighbour` | snake_search.py:71-83 | one pass of the neighbour loop: a free neighbour whose score improves gets the new `g_score`, an entry with f = g + heuristic, and the popped cell as its predecessor |
| `AStarSearch.RelaxNeighbours` | snake_search.py:71-83 | the four passes of the neighbour loop, in direction order |
| `AStarSearch.RelaxOnlyLowers` | snake_search.py:76-83 | the neighbour loop only lowers `g_score` values, and it rewrites `came_from[n]` only together with a strictly better score for n |
| `AStarSearch.MarkedNotImproved` | snake_search.py:64-83 | with a consistent heuristic, a cell already marked is never given a better score |
| `AStarSearch.AStarFound` | snake_search.py:57-63 | when the food is popped, the start has score 0 and no predecessor, every predecessor is a marked free neighbour one move cheaper, and `g_score[food] + 1` is at most the length of any free path |
| `AStarSearch.ReconstructPath` | snake_search.py:57-63 | walking `came_from` back from the food ends at the start; reversed and with the start in front, it is a free path of exactly `g_score[food] + 1` cells |
| `AStarSearch.AStar` | snake_search.py:42-85 | a returned path is a shortest free path from the head to the food, so its length equals that of `bfs`; `None` exactly when unreachable; the ghost run starts from the initial heap, scores and links, steps by `AStarStep` (pop the least entry, skip it if marked, otherwise mark it and relax its four neighbours) and ends where the food is popped or the heap empties; `Some` exactly when the food is popped; the metric is the largest heap length over the run |
| `AStarSearch.AStarRunUnique` | snake_search.py:51-83 | two runs of the loop from the same head that have both ended are equal, so the heap lengths and the metric are determined by the body and the food |
| `IterDeepening.MaxDepthValue` | snake_search.py:120 | the last depth limit is 27 × 17 = 459 |
| `IterDeepening.PushDeeper` | snake_search.py:144-149 | the neighbour loop pushes each free unvisited neighbour, one level deeper, with the walk extended by it |
| `IterDeepening.ExtendEntry` | snake_search.py:141-149 | a pushed neighbour is new to the path, because every cell of the path is marked when the neighbour passes the visited test |
| `IterDeepening.PassExpand` | snake_search.py:129-149 | every stack entry's depth equals its walk length and is within the limit, and its walk is a free path with no repeated cell |
| `IterDeepening.WeightDecreases` | snake_search.py:129-149 | expanding an entry below the limit shrinks the stack's weight, so every pass ends |
| `IterDeepening.MaxOverPasses` | snake_search.py:135-151 | the overall metric is the largest of the passes' maxima |
| `IterDeepening.Pass` | snake_search.py:125-149 | one depth-limited pass: its ghost run starts from the head alone with nothing marked, steps by `PassStep` (pop the top entry, drop it at the limit, otherwise mark it and push its free unmarked neighbours one level deeper) and ends where the food is popped or the stack empties; a path is returned exactly when the food is popped, and it is a free path from the head to the food with distinct cells and at most `limit` moves; the pass's metric is the largest stack length over its run |
| `IterDeepening.PassRunUnique` | snake_search.py:129-149 | two runs of a pass with the same limit that have both ended are equal |
| `IterDeepening.IterativeDeepening` | snake_search.py:117-154 | the ghost passes are runs of a depth-limited pass with limits 1, 2, ... in order; every pass but the last ended without popping the food; the result is `Some` exactly when the last pass popped the food, and is then `[head]` plus that entry's walk, a free path with distinct cells and at most k moves for the k-th pass; `None` only after all 459 limits; the head on the food gives `[head]`; the metric is the largest stack length over all passes run, on success and on failure, and is at least 1 |
| `IterDeepening.IdsRunUnique` | snake_search.py:124-151 | two sequences of passes that each end by popping the food or after the last limit are equal, so the metric is determined by the body and the food |
| `Game.FirstFree` | snake_game.py:38-43 | the draw the placement loop keeps is off the body, and every earlier draw was on it |
| `Game.SnakeGame.GenerateFood` | snake_game.py:38-43 | the food returned is the first draw off the body, hence a board cell off the body |
| `Game.SnakeGame.constructor` | snake_game.py:28-34 | a new game has a one-cell snake in the middle of the board heading right, score 0, not over, and food from the first free draw |
| `Game.SnakeGame.Move` | snake_game.py:45-61 | the new head is the old head plus the direction and goes to index 0; on the food the body grows by one with the old body as its tail unchanged, the score rises by one and new food is placed; otherwise the length stays and the last cell is dropped, with score and food untouched; `game_over` becomes true exactly when the new head is off the board or on the rest of the new body, and is never reset; the food stays on the board and off the body |
| `Game.FreeStepIsSafe` | snake_game.py:57-61 | a head moving to a free cell, as the first step of any returned path, does not end the game, whether the snake grows or not |
| `Game.TailChase` | snake_game.py:53-61 | moving into the cell the tail occupies is no collision when the tail moves away, and would be one if the body grew |
| `SnakeSearch.ExtendOneMove` | snake_game.py:107-111 | appending a free direction to a valid move list gives a valid move list to the neighbour |
| `SnakeSearch.PushMoves` | snake_game.py:106-111 | the neighbour loop appends each neighbour on the board and off the body, with the direction appended to its moves |
| `SnakeSearch.Bfs` | snake_game.py:87-112 | every returned move is one of the four direction constants; applied in order from the head they pass only over free cells and end at the food, in the fewest moves; `None` exactly when the food is unreachable |
| `SnakeSearch.AtFoodNoMoves` | snake_game.py:96-99 | when the head is on the food, the search answers with the empty move list |

## Left out

- Rendering and timing: `SnakeGame.draw`, the font and start ticks of the game's constructor, both simulation drivers (`main` in main.py and in snake_game.py), the wall-clock timeouts and memory sampling of main.py, and plot_eval.py. These are I/O, clocks and foreign calls.
- The direction-from-path computation and the fallback move scan in main.py:63-72 are glue around the searches. main.py also calls `SnakeGame` and `draw` with parameters that snake_game.py does not define; these integration mismatches are not modelled.
- Randomness: the food placement loop takes the random number generator's draws as a parameter. Each draw is a board cell. `GenerateFood`, `Move` (when it eats) and the constructor require that some draw lands off the body. Without such a draw the Python loop never ends.
- Game.SnakeGame.direction: the field is modelled, but its assignment by the driver in main.py is not.
- The searches take the body and the food as parameters instead of the game object. They require a non-empty body because the source reads `snake[0]`.
- Heaps: `heapq`'s sift mechanics are not modelled. The open list is a sequence, and a pop removes the least entry under Python's tuple and list order, which is the entry `heappop` returns.
- AStarSearch.ReconstructPath: `path.reverse()` works in place on a Python list. The model gives the reversed sequence as a value, so it does not capture the in-place update.
- IterDeepening.IterativeDeepening: does not state that `None` means the food is unreachable. Proving that needs a counting argument: a walk with no repeated cell has at most 459 cells, so in the last pass no entry reaches the limit. That argument is not carried out. The converse direction is proved: a returned path is a free path, so when the food is unreachable the result is `None`.
- The runs are ghost outputs: the source keeps no such record. They exist to state the metric and the order of pops.
- IterDeepening.Pass: the inner loop of `iter_deepening` is a method of its own, called by the outer loop with the depth limit. The source has both loops in one function. The model keeps the behaviour: on a found path the outer loop returns at once, with the pass metric folded into the overall one.
