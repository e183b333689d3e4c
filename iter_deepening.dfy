/**
 * Iterative-deepening search of the snake agent: depth-limited depth-first
 * passes with an explicit stack of (cell, walk, depth) entries, for depth
 * limits 1, 2, ... up to the number of board cells.  Every pass starts again
 * from an empty visited set and a stack holding only the origin; a cell is
 * marked when it is taken off the stack below the limit, and a neighbour is
 * pushed only when it is on the board, off the body and not yet marked.
 */
module IterDeepening {
  import opened Wrappers
  import opened Grid

  /** A stack entry: the cell, the cells walked after the origin to reach it, and the depth. */
  type StackEntry = (Cell, seq<Cell>, nat)

  /** The last depth limit tried: one per board cell. */
  const MaxDepth: int := GridWidth * GridHeight

  lemma MaxDepthValue()
    ensures MaxDepth == 459
  {
    GridDimensions();
  }

  // ------------------------------------------------------------------
  // The entries of the stack

  /** The entries the neighbour loop pushes for cell c, reached by walking p at depth d, along directions ds. */
  function Deeper(c: Cell, p: seq<Cell>, d: nat, ds: seq<Cell>): (r: seq<StackEntry>)
    ensures |r| == |ds|
  {
    seq(|ds|, k requires 0 <= k < |ds| => (Step(c, ds[k]), p + [Step(c, ds[k])], d + 1))
  }

  lemma DeeperAppend(c: Cell, p: seq<Cell>, d: nat, ds: seq<Cell>, dir: Cell)
    ensures Deeper(c, p, d, ds + [dir]) == Deeper(c, p, d, ds) + [(Step(c, dir), p + [Step(c, dir)], d + 1)]
  {
  }

  /**
   * A stack entry as every pass keeps it: its depth is the number of moves of
   * its walk and within the limit, origin and walk form a free path to its
   * cell with no cell twice, and every cell of that path but the last is
   * already marked.
   */
  predicate EntryOk(e: StackEntry, start: Cell, snake: seq<Cell>, visited: set<Cell>, limit: nat)
  {
    && e.2 == |e.1| && e.2 <= limit
    && PathFromTo([start] + e.1, start, e.0, snake)
    && Distinct([start] + e.1)
    && (forall j :: 0 <= j < |e.1| ==> ([start] + e.1)[j] in visited)
  }

  /** The loop invariant of one depth-limited pass. */
  predicate PassInv(stack: seq<StackEntry>, start: Cell, snake: seq<Cell>, visited: set<Cell>, limit: nat)
  {
    forall k :: 0 <= k < |stack| ==> EntryOk(stack[k], start, snake, visited, limit)
  }

  /** Marking more cells keeps every entry valid. */
  lemma EntryOkMonotone(e: StackEntry, start: Cell, snake: seq<Cell>, visited: set<Cell>, visited': set<Cell>, limit: nat)
    requires EntryOk(e, start, snake, visited, limit) && visited <= visited'
    ensures EntryOk(e, start, snake, visited', limit)
  {
  }

  /**
   * Extending the walk of a popped entry (c, p, d), with d below the limit and
   * c now marked, by an unmarked free neighbour n gives a valid entry: n is
   * new to the path because all of the path is marked.
   */
  lemma ExtendEntry(e: StackEntry, n: Cell, start: Cell, snake: seq<Cell>, visited: set<Cell>, limit: nat)
    requires EntryOk(e, start, snake, visited, limit) && e.2 < limit
    requires FreeNeighbour(e.0, n, snake) && n !in visited + {e.0}
    ensures EntryOk((n, e.1 + [n], e.2 + 1), start, snake, visited + {e.0}, limit)
  {
    var q := [start] + e.1;
    var q' := [start] + (e.1 + [n]);
    assert q' == q + [n];
    ExtendFreePath(q, n, snake);
    forall j | 0 <= j < |e.1 + [n]| ensures q'[j] in visited + {e.0} {
      if j < |e.1| { assert q'[j] == q[j]; } else { assert q'[j] == q[|q| - 1] == e.0; }
    }
    forall i, j | 0 <= i < j < |q'| ensures q'[i] != q'[j] {
      if j < |q| {
        assert q'[i] == q[i] && q'[j] == q[j];
      } else {
        assert q'[i] == q[i];
        if i < |e.1| { assert q[i] in visited; } else { assert q[i] == e.0; }
      }
    }
  }

  /** Popping the top entry keeps the pass invariant. */
  lemma PassPop(stack: seq<StackEntry>, start: Cell, snake: seq<Cell>, visited: set<Cell>, limit: nat)
    requires PassInv(stack, start, snake, visited, limit) && stack != []
    ensures PassInv(stack[..|stack| - 1], start, snake, visited, limit)
  {
  }

  /** Expanding the top entry below the limit keeps the pass invariant. */
  lemma PassExpand(stack: seq<StackEntry>, start: Cell, snake: seq<Cell>, visited: set<Cell>, limit: nat)
    requires PassInv(stack, start, snake, visited, limit)
    requires stack != [] && stack[|stack| - 1].2 < limit
    ensures var e := stack[|stack| - 1];
      PassInv(stack[..|stack| - 1] + Deeper(e.0, e.1, e.2, OpenDirections(e.0, snake, visited + {e.0}, 4)),
              start, snake, visited + {e.0}, limit)
  {
    var e := stack[|stack| - 1];
    var visited' := visited + {e.0};
    var ds := OpenDirections(e.0, snake, visited', 4);
    var rest := stack[..|stack| - 1];
    var stack' := rest + Deeper(e.0, e.1, e.2, ds);
    assert EntryOk(e, start, snake, visited, limit);
    OpenDirectionsSpec(e.0, snake, visited', 4);
    forall k | 0 <= k < |stack'| ensures EntryOk(stack'[k], start, snake, visited', limit) {
      if k < |rest| {
        assert stack'[k] == stack[k];
        EntryOkMonotone(stack[k], start, snake, visited, visited', limit);
      } else {
        var d := ds[k - |rest|];
        assert d in ds;
        var n := Step(e.0, d);
        assert Delta(e.0, n) == d;
        ExtendEntry(e, n, start, snake, visited, limit);
      }
    }
  }

  /** The walk of an entry popped at the food is a free path with no cell twice, within the limit. */
  lemma PassFound(stack: seq<StackEntry>, start: Cell, target: Cell, snake: seq<Cell>, visited: set<Cell>, limit: nat)
    requires PassInv(stack, start, snake, visited, limit) && stack != [] && stack[|stack| - 1].0 == target
    ensures var p := [start] + stack[|stack| - 1].1;
      PathFromTo(p, start, target, snake) && Distinct(p) && |p| <= limit + 1
  {
    assert EntryOk(stack[|stack| - 1], start, snake, visited, limit);
  }

  // ------------------------------------------------------------------
  // Termination of a pass: an entry at depth d weighs 5^(limit - d), and the
  // at most four entries pushed for it weigh 5^(limit - d - 1) each.

  function Pow5(k: nat): (r: nat)
    ensures r >= 1
  {
    if k == 0 then 1 else 5 * Pow5(k - 1)
  }

  function Weight(stack: seq<StackEntry>, limit: nat): nat
  {
    if stack == [] then 0
    else
      var d := stack[|stack| - 1].2;
      Weight(stack[..|stack| - 1], limit) + (if d <= limit then Pow5(limit - d) else 0)
  }

  lemma {:induction false} WeightAppend(a: seq<StackEntry>, b: seq<StackEntry>, limit: nat)
    ensures Weight(a + b, limit) == Weight(a, limit) + Weight(b, limit)
    decreases |b|
  {
    if b == [] {
      assert a + b == a;
    } else {
      assert (a + b)[..|a + b| - 1] == a + b[..|b| - 1];
      assert (a + b)[|a + b| - 1] == b[|b| - 1];
      WeightAppend(a, b[..|b| - 1], limit);
    }
  }

  lemma {:induction false} WeightDeeper(c: Cell, p: seq<Cell>, d: nat, ds: seq<Cell>, limit: nat)
    requires d < limit
    ensures Weight(Deeper(c, p, d, ds), limit) == |ds| * Pow5(limit - d - 1)
    decreases |ds|
  {
    if ds != [] {
      var ds' := ds[..|ds| - 1];
      assert Deeper(c, p, d, ds)[..|ds| - 1] == Deeper(c, p, d, ds');
      WeightDeeper(c, p, d, ds', limit);
      var w := Pow5(limit - d - 1);
      assert |ds| * w == |ds'| * w + w;
    }
  }

  /** Expanding the top entry below the limit makes the stack lighter. */
  lemma WeightDecreases(stack: seq<StackEntry>, ds: seq<Cell>, limit: nat)
    requires stack != [] && stack[|stack| - 1].2 < limit && |ds| <= 4
    ensures var e := stack[|stack| - 1];
      Weight(stack[..|stack| - 1] + Deeper(e.0, e.1, e.2, ds), limit) < Weight(stack, limit)
  {
    var e := stack[|stack| - 1];
    var prefix := stack[..|stack| - 1];
    WeightAppend(prefix, Deeper(e.0, e.1, e.2, ds), limit);
    WeightDeeper(e.0, e.1, e.2, ds, limit);
    var w := Pow5(limit - e.2 - 1);
    assert Weight(stack, limit) == Weight(prefix, limit) + Pow5(limit - e.2);
    assert Pow5(limit - e.2) == 5 * w;
    FewerThanFive(|ds|, w);
  }

  /** Popping an entry at the limit, which pushes nothing, makes the stack lighter. */
  lemma WeightAtLimit(stack: seq<StackEntry>, limit: nat)
    requires stack != [] && stack[|stack| - 1].2 == limit
    ensures Weight(stack[..|stack| - 1], limit) < Weight(stack, limit)
  {
  }

  lemma FewerThanFive(n: nat, w: nat)
    requires n <= 4 && w >= 1
    ensures n * w < 5 * w
  {
    if n == 0 {} else if n == 1 {} else if n == 2 {} else if n == 3 {}
  }

  // ------------------------------------------------------------------
  // The frontier metric over several passes

  /** The frontier lengths of all passes, in order. */
  function Concat(passes: seq<seq<nat>>): seq<nat>
  {
    if passes == [] then [] else Concat(passes[..|passes| - 1]) + passes[|passes| - 1]
  }

  lemma {:induction false} MaxOfConcat(a: seq<nat>, b: seq<nat>)
    ensures MaxOf(a + b) == Max(MaxOf(a), MaxOf(b))
    decreases |b|
  {
    if b == [] {
      assert a + b == a;
    } else {
      var b' := b[..|b| - 1];
      assert a + b == (a + b') + [b[|b| - 1]];
      assert b == b' + [b[|b| - 1]];
      MaxOfConcat(a, b');
      MaxOfAppend(a + b', b[|b| - 1]);
      MaxOfAppend(b', b[|b| - 1]);
    }
  }

  /** The largest frontier length over all passes, each pass opening with the origin alone. */
  lemma MaxOverPasses(passes: seq<seq<nat>>, pass: seq<nat>)
    ensures MaxOf(Concat(passes + [pass])) == Max(MaxOf(Concat(passes)), MaxOf(pass))
  {
    assert (passes + [pass])[..|passes|] == passes;
    MaxOfConcat(Concat(passes), pass);
  }

  /** With every pass opening at 1, the largest length over the passes is at least 1. */
  lemma {:induction false} ConcatPositive(passes: seq<seq<nat>>)
    requires passes != [] && OpensWithOrigin(passes)
    ensures MaxOf(Concat(passes)) >= 1
    decreases |passes|
  {
    var last := passes[|passes| - 1];
    assert last[0] in last;
    MaxOverPasses(passes[..|passes| - 1], last);
    assert passes[..|passes| - 1] + [last] == passes;
  }

  predicate OpensWithOrigin(passes: seq<seq<nat>>)
  {
    forall i :: 0 <= i < |passes| ==> passes[i] != [] && passes[i][0] == 1
  }

  lemma OpensWithOriginAppend(passes: seq<seq<nat>>, pass: seq<nat>)
    requires OpensWithOrigin(passes) && pass != [] && pass[0] == 1
    ensures OpensWithOrigin(passes + [pass])
  {
  }

  /** Closing a pass that opened with the origin alone adds its lengths to the overall metric. */
  lemma ClosePass(passes: seq<seq<nat>>, pass: seq<nat>)
    requires OpensWithOrigin(passes) && pass != [] && pass[0] == 1
    ensures OpensWithOrigin(passes + [pass])
    ensures MaxOf(Concat(passes + [pass])) == Max(MaxOf(Concat(passes)), MaxOf(pass)) == Max(MaxOf(pass), MaxOf(Concat(passes)))
    ensures MaxOf(Concat(passes + [pass])) >= 1
  {
    OpensWithOriginAppend(passes, pass);
    MaxOverPasses(passes, pass);
    ConcatPositive(passes + [pass]);
  }

  // ------------------------------------------------------------------
  // The runs of the passes

  /** The state of a pass at the head of its loop: the stack and the marked cells. */
  type PassState = (seq<StackEntry>, set<Cell>)

  /** The entry a pass pops from a state: the top of its stack. */
  function Top(st: PassState): StackEntry
    requires st.0 != []
  {
    st.0[|st.0| - 1]
  }

  /**
   * One iteration of the loop of a pass with the given limit that does not
   * return: the top entry is popped; one at the limit is dropped, one below
   * it is marked and its free unmarked neighbours are pushed one level deeper.
   */
  function PassStep(snake: seq<Cell>, limit: nat, st: PassState): PassState
    requires st.0 != []
  {
    var e := Top(st);
    var rest := st.0[..|st.0| - 1];
    if e.2 >= limit then (rest, st.1)
    else (rest + Deeper(e.0, e.1, e.2, OpenDirections(e.0, snake, st.1 + {e.0}, 4)), st.1 + {e.0})
  }

  lemma PassStepCases(snake: seq<Cell>, limit: nat, st: PassState)
    requires st.0 != []
    ensures var e, rest := Top(st), st.0[..|st.0| - 1];
      && (e.2 >= limit ==> PassStep(snake, limit, st) == (rest, st.1))
      && (e.2 < limit ==>
            PassStep(snake, limit, st) == (rest + Deeper(e.0, e.1, e.2, OpenDirections(e.0, snake, st.1 + {e.0}, 4)), st.1 + {e.0}))
  {
  }

  /** The state every pass starts from: the origin alone on the stack, nothing marked. */
  function PassStart(start: Cell): PassState
  {
    ([(start, [], 0)], {})
  }

  /**
   * The states of the pass with the given limit at every loop head with a
   * non-empty stack, in order: the first is the start of the pass, and each
   * next one is the step of the one before, which did not pop the food.
   */
  predicate PassRun(snake: seq<Cell>, start: Cell, target: Cell, limit: nat, run: seq<PassState>)
  {
    && run != [] && run[0] == PassStart(start)
    && (forall k :: 0 <= k < |run| ==> run[k].0 != [])
    && (forall k :: 0 <= k < |run| - 1 ==> Top(run[k]).0 != target && run[k + 1] == PassStep(snake, limit, run[k]))
  }

  /** A pass stops at a state that pops the food, or whose step empties the stack. */
  predicate PassOver(snake: seq<Cell>, target: Cell, limit: nat, st: PassState)
    requires st.0 != []
  {
    Top(st).0 == target || PassStep(snake, limit, st).0 == []
  }

  /** The loop invariant of a pass about its run: `st` is the state that follows the recorded ones. */
  predicate PassRunSoFar(snake: seq<Cell>, start: Cell, target: Cell, limit: nat, run: seq<PassState>, st: PassState)
  {
    if run == [] then st == PassStart(start)
    else (PassRun(snake, start, target, limit, run) && Top(run[|run| - 1]).0 != target
          && PassStep(snake, limit, run[|run| - 1]) == st)
  }

  /** The stack lengths of every pass, pass by pass. */
  function AllSizes(passes: seq<seq<PassState>>): (all: seq<seq<nat>>)
    ensures |all| == |passes|
  {
    seq(|passes|, i requires 0 <= i < |passes| => FrontierSizes(passes[i]))
  }

  /** Every pass in `passes`, the i-th with limit i + 1, ran to its end without popping the food. */
  predicate PassesMissed(snake: seq<Cell>, start: Cell, target: Cell, passes: seq<seq<PassState>>)
  {
    forall i :: 0 <= i < |passes| ==>
      && PassRun(snake, start, target, i + 1, passes[i])
      && PassOver(snake, target, i + 1, passes[i][|passes[i]| - 1])
      && Top(passes[i][|passes[i]| - 1]).0 != target
  }

  /**
   * The passes of a whole search: every pass before the last ran to its end
   * without popping the food, and the last, with limit |passes|, ran to its end.
   */
  predicate IdsRun(snake: seq<Cell>, start: Cell, target: Cell, passes: seq<seq<PassState>>)
  {
    && 1 <= |passes| <= MaxDepth
    && PassesMissed(snake, start, target, passes[..|passes| - 1])
    && PassRun(snake, start, target, |passes|, passes[|passes| - 1])
    && PassOver(snake, target, |passes|, passes[|passes| - 1][|passes[|passes| - 1]| - 1])
  }

  /** The entry the last pass of a search ends on. */
  function LastTop(passes: seq<seq<PassState>>): StackEntry
    requires passes != [] && passes[|passes| - 1] != []
    requires passes[|passes| - 1][|passes[|passes| - 1]| - 1].0 != []
  {
    var last := passes[|passes| - 1];
    Top(last[|last| - 1])
  }

  lemma PassRunAppend(snake: seq<Cell>, start: Cell, target: Cell, limit: nat, run: seq<PassState>, st: PassState)
    requires PassRunSoFar(snake, start, target, limit, run, st) && st.0 != []
    ensures PassRun(snake, start, target, limit, run + [st])
    ensures FrontierSizes(run + [st]) == FrontierSizes(run) + [|st.0|]
  {
  }

  lemma PassRunNext(snake: seq<Cell>, start: Cell, target: Cell, limit: nat, run: seq<PassState>, next: PassState)
    requires PassRun(snake, start, target, limit, run) && Top(run[|run| - 1]).0 != target
    requires next == PassStep(snake, limit, run[|run| - 1])
    ensures PassRunSoFar(snake, start, target, limit, run, next)
  {
  }

  /** Closing a pass that missed the food adds it to the passes that missed. */
  lemma PassesMissedAppend(snake: seq<Cell>, start: Cell, target: Cell, passes: seq<seq<PassState>>, run: seq<PassState>)
    requires PassesMissed(snake, start, target, passes)
    requires PassRun(snake, start, target, |passes| + 1, run)
    requires PassOver(snake, target, |passes| + 1, run[|run| - 1]) && Top(run[|run| - 1]).0 != target
    ensures PassesMissed(snake, start, target, passes + [run])
    ensures AllSizes(passes + [run]) == AllSizes(passes) + [FrontierSizes(run)]
  {
  }

  /** The last pass closes the run of a whole search. */
  lemma IdsRunClose(snake: seq<Cell>, start: Cell, target: Cell, passes: seq<seq<PassState>>, run: seq<PassState>)
    requires PassesMissed(snake, start, target, passes) && |passes| < MaxDepth
    requires PassRun(snake, start, target, |passes| + 1, run) && PassOver(snake, target, |passes| + 1, run[|run| - 1])
    ensures IdsRun(snake, start, target, passes + [run])
    ensures AllSizes(passes + [run]) == AllSizes(passes) + [FrontierSizes(run)]
  {
    assert (passes + [run])[..|passes|] == passes;
  }

  /** A search all of whose passes missed the food, up to the last limit, ends there. */
  lemma IdsRunAllMissed(snake: seq<Cell>, start: Cell, target: Cell, passes: seq<seq<PassState>>)
    requires PassesMissed(snake, start, target, passes) && 1 <= |passes| <= MaxDepth
    ensures IdsRun(snake, start, target, passes) && LastTop(passes).0 != target
  {
    assert forall i :: 0 <= i < |passes| - 1 ==> passes[..|passes| - 1][i] == passes[i];
  }

  /** No state of a pass but its last is over. */
  lemma PassOverOnlyAtEnd(snake: seq<Cell>, start: Cell, target: Cell, limit: nat, run: seq<PassState>)
    requires PassRun(snake, start, target, limit, run)
    ensures forall k :: 0 <= k < |run| - 1 ==> !PassOver(snake, target, limit, run[k])
  {
    forall k | 0 <= k < |run| - 1 ensures !PassOver(snake, target, limit, run[k]) {
      assert run[k + 1] == PassStep(snake, limit, run[k]);
    }
  }

  /** A pass that agrees with an over pass up to that pass's length goes no further. */
  lemma PassRunStops(snake: seq<Cell>, start: Cell, target: Cell, limit: nat, r1: seq<PassState>, r2: seq<PassState>)
    requires PassRun(snake, start, target, limit, r1) && PassOver(snake, target, limit, r1[|r1| - 1])
    requires PassRun(snake, start, target, limit, r2) && |r1| <= |r2|
    requires forall i :: 0 <= i < |r1| ==> r1[i] == r2[i]
    ensures |r2| == |r1|
  {
    PassOverOnlyAtEnd(snake, start, target, limit, r2);
    assert r1[|r1| - 1] == r2[|r1| - 1];
  }

  /** Two passes with the same limit that are both over are the same pass. */
  lemma PassRunUnique(snake: seq<Cell>, start: Cell, target: Cell, limit: nat, r1: seq<PassState>, r2: seq<PassState>)
    requires PassRun(snake, start, target, limit, r1) && PassOver(snake, target, limit, r1[|r1| - 1])
    requires PassRun(snake, start, target, limit, r2) && PassOver(snake, target, limit, r2[|r2| - 1])
    ensures r1 == r2
  {
    var n := if |r1| < |r2| then |r1| else |r2|;
    for k := 1 to n
      invariant forall i :: 0 <= i < k ==> r1[i] == r2[i]
    {
      assert r1[k] == PassStep(snake, limit, r1[k - 1]) && r2[k] == PassStep(snake, limit, r2[k - 1]);
    }
    if |r1| <= |r2| {
      PassRunStops(snake, start, target, limit, r1, r2);
    } else {
      PassRunStops(snake, start, target, limit, r2, r1);
    }
  }

  /**
   * Two whole searches that each end by finding the food or after the last
   * limit are the same passes, so the metric `IterativeDeepening` returns is
   * determined by the body and the food alone.
   */
  lemma IdsRunUnique(snake: seq<Cell>, start: Cell, target: Cell, p1: seq<seq<PassState>>, p2: seq<seq<PassState>>)
    requires IdsRun(snake, start, target, p1) && (LastTop(p1).0 == target || |p1| == MaxDepth)
    requires IdsRun(snake, start, target, p2) && (LastTop(p2).0 == target || |p2| == MaxDepth)
    ensures p1 == p2
  {
    IdsPassesAgree(snake, start, target, p1, p2);
    if |p1| < |p2| {
      IdsShorterMissed(snake, start, target, p1, p2);
    } else if |p2| < |p1| {
      IdsShorterMissed(snake, start, target, p2, p1);
    }
  }

  /** Every pass of a search, the i-th with limit i + 1, ran to its end. */
  lemma IdsPassAt(snake: seq<Cell>, start: Cell, target: Cell, passes: seq<seq<PassState>>, i: nat)
    requires IdsRun(snake, start, target, passes) && i < |passes|
    ensures PassRun(snake, start, target, i + 1, passes[i]) && PassOver(snake, target, i + 1, passes[i][|passes[i]| - 1])
  {
    if i < |passes| - 1 {
      assert passes[..|passes| - 1][i] == passes[i];
    }
  }

  /** Two searches agree on every pass both ran. */
  lemma IdsPassesAgree(snake: seq<Cell>, start: Cell, target: Cell, p1: seq<seq<PassState>>, p2: seq<seq<PassState>>)
    requires IdsRun(snake, start, target, p1) && IdsRun(snake, start, target, p2)
    ensures forall i :: 0 <= i < |p1| && i < |p2| ==> p1[i] == p2[i]
  {
    forall i | 0 <= i < |p1| && i < |p2| ensures p1[i] == p2[i] {
      IdsPassAt(snake, start, target, p1, i);
      IdsPassAt(snake, start, target, p2, i);
      PassRunUnique(snake, start, target, i + 1, p1[i], p2[i]);
    }
  }

  /** A search whose last pass is also an earlier pass of another ended neither by finding nor at the last limit. */
  lemma IdsShorterMissed(snake: seq<Cell>, start: Cell, target: Cell, p1: seq<seq<PassState>>, p2: seq<seq<PassState>>)
    requires IdsRun(snake, start, target, p1) && IdsRun(snake, start, target, p2) && |p1| < |p2|
    requires p1[|p1| - 1] == p2[|p1| - 1]
    ensures LastTop(p1).0 != target && |p1| < MaxDepth
  {
    assert p2[..|p2| - 1][|p1| - 1] == p2[|p1| - 1];
  }

  // ------------------------------------------------------------------
  // The methods

  /**
   * The neighbour loop of a pass: for each direction in the fixed order, push
   * the neighbour, with the walk extended by it and one level deeper, when it
   * is on the board, off the body and not yet marked.  Specified by `Deeper`
   * over the directions that pass the test.
   */
  method PushDeeper(stack: seq<StackEntry>, cell: Cell, trail: seq<Cell>, depth: nat, snake: seq<Cell>, visited: set<Cell>)
    returns (stack': seq<StackEntry>)
    ensures stack' == stack + Deeper(cell, trail, depth, OpenDirections(cell, snake, visited, 4))
  {
    stack' := stack;
    for i := 0 to 4
      invariant stack' == stack + Deeper(cell, trail, depth, OpenDirections(cell, snake, visited, i))
    {
      var d := Directions[i];
      var next := (cell.0 + d.0, cell.1 + d.1);
      DeeperAppend(cell, trail, depth, OpenDirections(cell, snake, visited, i), d);
      if 0 <= next.0 < GridWidth && 0 <= next.1 < GridHeight && next !in snake && next !in visited {
        stack' := stack' + [(next, trail + [next], depth + 1)];
      }
    }
  }

  /**
   * One depth-limited pass (the body of the outer loop of
   * `IterativeDeepening` up to its bookkeeping): a depth-first search from
   * the origin with a fresh visited set that pops entries at the limit
   * without expanding them.  The path found is free, has no cell twice and at
   * most `limit` moves.
   */
  method Pass(snake: seq<Cell>, start: Cell, target: Cell, limit: nat)
    returns (found: Option<seq<Cell>>, maxNodesPass: nat, ghost run: seq<PassState>)
    ensures PassRun(snake, start, target, limit, run) && PassOver(snake, target, limit, run[|run| - 1])
    ensures found.Some? <==> Top(run[|run| - 1]).0 == target
    ensures found.Some? ==> found.value == [start] + Top(run[|run| - 1]).1
    ensures found.Some? ==> PathFromTo(found.value, start, target, snake) && Distinct(found.value)
    ensures found.Some? ==> |found.value| <= limit + 1
    ensures start == target ==> found == Some([start])
    ensures maxNodesPass == MaxOf(FrontierSizes(run))
  {
    var visited: set<Cell> := {};
    var stack: seq<StackEntry> := [(start, [], 0)];
    maxNodesPass := 0;
    run := [];
    while stack != []
      invariant PassInv(stack, start, snake, visited, limit)
      invariant PassRunSoFar(snake, start, target, limit, run, (stack, visited))
      invariant maxNodesPass == MaxOf(FrontierSizes(run))
      invariant run != [] ==> start != target
      decreases Weight(stack, limit)
    {
      ghost var first := run == [];
      assert first ==> stack[|stack| - 1] == (start, [], 0);
      PassRunAppend(snake, start, target, limit, run, (stack, visited));
      MaxOfAppend(FrontierSizes(run), |stack|);
      run := run + [(stack, visited)];
      maxNodesPass := Max(maxNodesPass, |stack|);
      ghost var before := stack;
      var cell, trail, depth := stack[|stack| - 1].0, stack[|stack| - 1].1, stack[|stack| - 1].2;
      stack := stack[..|stack| - 1];
      if cell == target {
        PassFound(before, start, target, snake, visited, limit);
        assert start == target ==> first && trail == [] && [start] + trail == [start];
        found := Some([start] + trail);
        return;
      }
      assert EntryOk(before[|before| - 1], start, snake, visited, limit);
      PassStepCases(snake, limit, (before, visited));
      if depth >= limit {
        WeightAtLimit(before, limit);
        PassPop(before, start, snake, visited, limit);
        PassRunNext(snake, start, target, limit, run, (stack, visited));
        continue;
      }
      PassExpand(before, start, snake, visited, limit);
      WeightDecreases(before, OpenDirections(cell, snake, visited + {cell}, 4), limit);
      visited := visited + {cell};
      stack := PushDeeper(stack, cell, trail, depth, snake, visited);
      PassRunNext(snake, start, target, limit, run, (stack, visited));
    }
    found := None;
  }

  /**
   * Iterative deepening from the head to the food: passes with limits 1, 2,
   * ... up to the number of board cells, stopping at the first pass that
   * finds the food.  A path found in the pass with limit k is a free path from
   * the head to the food with no cell twice and at most k moves.  The metric
   * is the largest stack length seen at the head of the inner loop over all
   * passes run, on success and on failure; on failure every limit up to the
   * number of board cells was tried.
   */
  method IterativeDeepening(snake: seq<Cell>, food: Cell)
    returns (path: Option<seq<Cell>>, maxNodes: nat, ghost passes: seq<seq<PassState>>)
    requires |snake| > 0
    ensures path.Some? ==> PathFromTo(path.value, snake[0], food, snake) && Distinct(path.value)
    ensures IdsRun(snake, snake[0], food, passes)
    ensures path.Some? <==> LastTop(passes).0 == food
    ensures path.Some? ==> path.value == [snake[0]] + LastTop(passes).1 && |path.value| <= |passes| + 1
    ensures path.None? ==> |passes| == MaxDepth
    ensures snake[0] == food ==> path == Some([food])
    ensures maxNodes == MaxOf(Concat(AllSizes(passes)))
    ensures maxNodes >= 1
  {
    var start := snake[0];
    var target := food;
    var maxDepth := GridWidth * GridHeight;
    var maxNodesOverall: nat := 0;
    passes := [];
    for depthLimit := 1 to maxDepth + 1
      invariant |passes| == depthLimit - 1
      invariant PassesMissed(snake, start, target, passes)
      invariant OpensWithOrigin(AllSizes(passes))
      invariant maxNodesOverall == MaxOf(Concat(AllSizes(passes)))
      invariant depthLimit > 1 ==> start != target
    {
      var found, maxNodesPass, run := Pass(snake, start, target, depthLimit);
      ClosePass(AllSizes(passes), FrontierSizes(run));
      if found.Some? {
        IdsRunClose(snake, start, target, passes, run);
        passes := passes + [run];
        path := found;
        maxNodes := Max(maxNodesPass, maxNodesOverall);
        return;
      }
      PassesMissedAppend(snake, start, target, passes, run);
      passes := passes + [run];
      maxNodesOverall := Max(maxNodesOverall, maxNodesPass);
    }
    MaxDepthValue();
    IdsRunAllMissed(snake, start, target, passes);
    path := None;
    maxNodes := maxNodesOverall;
    ConcatPositive(AllSizes(passes));
  }
}
