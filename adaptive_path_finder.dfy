/** The adaptive planner: an A* search over the shared grid, replanning when
    a moving obstacle lands on or is predicted to cross the current path. */
module AdaptivePlanner {
  import opened Cells
  import opened GridWalks
  import opened SearchTheory
  import opened GridSearch
  import opened Obstacles

  /** The planner's neighbour order: up, right, down, left. */
  const PlannerMoves: seq<(int, int)> := [(-1, 0), (0, 1), (1, 0), (0, -1)]

  /** The reset a planning run applies to every cell: scores unreached, no
      parent, and every type but WALL, START and END back to EMPTY. */
  function ResetForPlanning(c: Cell): (r: Cell)
    ensures r.kind == Wall <==> c.kind == Wall
    ensures r.kind in {Wall, Start, End, Empty}
    ensures r.distance == c.distance && r.qValue == c.qValue && r.showQValue == c.showQValue
  {
    c.(gScore := IntMax, fScore := IntMax, previous := None,
       kind := if c.kind == Wall || c.kind == Start || c.kind == End then c.kind else Empty)
  }

  /** How many future positions of a moved obstacle are checked against the
      current path. */
  const PredictionSteps: nat := 5

  /** A moved obstacle threatens a non-empty path when it stands on it or one
      of its predicted positions lies on it. */
  predicate Threatened(path: seq<Pos>, here: Pos, predictions: seq<Pos>) {
    |path| > 0 && (here in path || exists k :: 0 <= k < |predictions| && predictions[k] in path)
  }

  /** A path is threatened exactly when it is non-empty and holds the
      obstacle's cell or one of its predicted cells. */
  lemma ThreatenedMeans(path: seq<Pos>, here: Pos, predictions: seq<Pos>)
    ensures Threatened(path, here, predictions) <==> |path| > 0 && exists q :: q in path && (q == here || q in predictions)
  {
    if Threatened(path, here, predictions) && here !in path {
      var k :| 0 <= k < |predictions| && predictions[k] in path;
      assert predictions[k] in predictions;
    }
  }

  /** The part of an obstacle's state that a move reads or changes. */
  datatype ObstacleState = ObstacleState(pos: Pos, direction: int, counter: int, pattern: MovementPattern, speed: int,
                                         lo: int, hi: int, horizontal: bool, valid: bool)

  ghost function StateOf(o: DynamicObstacle): ObstacleState
    reads o
  {
    ObstacleState(Pos(o.row, o.col), o.direction, o.moveCounter, o.pattern, o.speed, o.patrolStart, o.patrolEnd,
                  o.patrolHorizontal, o.Valid())
  }

  ghost function States(os: seq<DynamicObstacle>): (r: seq<ObstacleState>)
    reads set o | o in os
    ensures |r| == |os| && forall k :: 0 <= k < |os| ==> r[k] == StateOf(os[k])
  {
    if |os| == 0 then [] else States(os[..|os| - 1]) + [StateOf(os[|os| - 1])]
  }

  /** No obstacle is registered twice. */
  predicate Distinct(os: seq<DynamicObstacle>) {
    forall i :: 0 <= i < |os| ==> os[i] !in os[..i]
  }

  /** In a list without repeats, every other entry differs from the `i`-th. */
  lemma DistinctAt(os: seq<DynamicObstacle>, i: int)
    requires Distinct(os) && 0 <= i < |os|
    ensures forall k :: 0 <= k < |os| && k != i ==> os[k] != os[i]
  {
    forall k | 0 <= k < |os| && k != i
      ensures os[k] != os[i]
    {
      if k < i {
        assert os[k] == os[..i][k];
      } else {
        assert os[i] == os[..k][i];
      }
    }
  }

  /** Appending an obstacle keeps a list without repeats exactly when it is
      not listed yet. */
  lemma DistinctSnoc(os: seq<DynamicObstacle>, o: DynamicObstacle)
    ensures Distinct(os + [o]) <==> Distinct(os) && o !in os
  {
    var s := os + [o];
    assert s[..|os|] == os;
    if Distinct(s) {
      forall i | 0 <= i < |os|
        ensures os[i] !in os[..i]
      {
        assert s[..i] == os[..i];
      }
    }
    if Distinct(os) && o !in os {
      forall i | 0 <= i < |s|
        ensures s[i] !in s[..i]
      {
        if i < |os| {
          assert s[..i] == os[..i];
        }
      }
    }
  }

  /** What a move with outcome `outcome` did to an obstacle's cell on an
      `n` by `n` grid: none, one step on the grid, or one step off it. */
  predicate Stepped(outcome: MoveOutcome, from: Pos, to: Pos, n: int) {
    match outcome
    case NotMoved => to == from
    case Moved => Adjacent(from, to) && InBounds(n, to)
    case Crashed => Adjacent(from, to) && !InBounds(n, to)
  }

  /** A recorded step leaves the obstacle on its cell exactly when it did
      not move. */
  lemma StayedIffNotMoved(outcome: MoveOutcome, from: Pos, to: Pos, n: int)
    requires Stepped(outcome, from, to, n)
    ensures outcome == NotMoved <==> to == from
    ensures outcome == Moved <==> to != from && InBounds(n, to)
  {
  }

  /** The cells of a grid, by position. */
  ghost function Layout(grid: array2<Cell>): (m: map<Pos, Cell>)
    reads grid
    ensures forall r, c :: 0 <= r < grid.Length0 && 0 <= c < grid.Length1 ==> Pos(r, c) in m && m[Pos(r, c)] == grid[r, c]
    ensures forall p :: p in m ==> 0 <= p.row < grid.Length0 && 0 <= p.col < grid.Length1
  {
    map r, c | 0 <= r < grid.Length0 && 0 <= c < grid.Length1 :: Pos(r, c) := grid[r, c]
  }

  /** Cell `p` after obstacles stepped from `from[k]` to `to[k]`, in order. */
  function Replayed(b: Cell, p: Pos, from: seq<Pos>, to: seq<Pos>): Cell
    requires |from| == |to|
  {
    if |from| == 0 then b
    else AfterStep(Replayed(b, p, from[..|from| - 1], to[..|to| - 1]), p, from[|from| - 1], to[|to| - 1])
  }

  /** The WALL cells of an `n` by `n` grid after the same steps. */
  function ReplayedWalls(n: int, walls: set<Pos>, from: seq<Pos>, to: seq<Pos>): set<Pos>
    requires |from| == |to|
  {
    if |from| == 0 then walls
    else StepWalls(n, ReplayedWalls(n, walls, from[..|from| - 1], to[..|to| - 1]), from[|from| - 1], to[|to| - 1])
  }

  /** The cells an obstacle may enter once the records `cells` went
      through the steps from `from[k]` to `to[k]`. */
  function ReplayedOpen(cells: map<Pos, Cell>, from: seq<Pos>, to: seq<Pos>): set<Pos>
    requires |from| == |to|
  {
    set p | p in cells && MayEnter(Replayed(cells[p], p, from, to).kind)
  }

  /** A grid whose cells are the records of `before` replayed through the
      steps lets an obstacle enter exactly the replayed open cells. */
  lemma OpenReplayed(grid: array2<Cell>, before: map<Pos, Cell>, from: seq<Pos>, to: seq<Pos>)
    requires |from| == |to|
    requires forall p :: p in before ==> 0 <= p.row < grid.Length0 && 0 <= p.col < grid.Length1
    requires forall r, c {:trigger grid[r, c]} :: 0 <= r < grid.Length0 && 0 <= c < grid.Length1 ==>
               Pos(r, c) in before && grid[r, c] == Replayed(before[Pos(r, c)], Pos(r, c), from, to)
    ensures Enterable(grid) == ReplayedOpen(before, from, to)
  {
    forall p | p in before
      ensures p in Enterable(grid) <==> p in ReplayedOpen(before, from, to)
    {
      assert grid[p.row, p.col] == Replayed(before[Pos(p.row, p.col)], Pos(p.row, p.col), from, to);
    }
  }

  lemma ReplayedSnoc(b: Cell, p: Pos, n: int, walls: set<Pos>, from: seq<Pos>, to: seq<Pos>, x: Pos, y: Pos)
    requires |from| == |to|
    ensures Replayed(b, p, from + [x], to + [y]) == AfterStep(Replayed(b, p, from, to), p, x, y)
    ensures ReplayedWalls(n, walls, from + [x], to + [y]) == StepWalls(n, ReplayedWalls(n, walls, from, to), x, y)
  {
    assert (from + [x])[..|from|] == from && (to + [y])[..|to|] == to;
  }

  /** Some move among the recorded ones went onto the grid and threatens
      `path`. */
  function AnyThreat(path: seq<Pos>, outcomes: seq<MoveOutcome>, landed: seq<Pos>, forecasts: seq<seq<Pos>>): (b: bool)
    requires |outcomes| == |landed| == |forecasts|
    ensures b <==> exists k :: 0 <= k < |outcomes| && outcomes[k] == Moved && Threatened(path, landed[k], forecasts[k])
  {
    if |outcomes| == 0 then false
    else
      var m := |outcomes| - 1;
      assert forall k :: 0 <= k < m ==> outcomes[..m][k] == outcomes[k] && landed[..m][k] == landed[k] && forecasts[..m][k] == forecasts[k];
      AnyThreat(path, outcomes[..m], landed[..m], forecasts[..m]) || (outcomes[m] == Moved && Threatened(path, landed[m], forecasts[m]))
  }

  lemma AnyThreatSnoc(path: seq<Pos>, outcomes: seq<MoveOutcome>, landed: seq<Pos>, forecasts: seq<seq<Pos>>,
                      x: MoveOutcome, y: Pos, z: seq<Pos>)
    requires |outcomes| == |landed| == |forecasts|
    ensures AnyThreat(path, outcomes + [x], landed + [y], forecasts + [z]) ==
            (AnyThreat(path, outcomes, landed, forecasts) || (x == Moved && Threatened(path, y, z)))
  {
    assert (outcomes + [x])[..|outcomes|] == outcomes && (landed + [y])[..|landed|] == landed;
    assert (forecasts + [z])[..|forecasts|] == forecasts;
  }

  /** The replayed WALL cells stay on the grid, and a cell on the grid is
      among them exactly when its replayed record is a WALL. */
  lemma {:induction false} ReplayedWallsAt(n: int, b: Cell, p: Pos, walls: set<Pos>, from: seq<Pos>, to: seq<Pos>)
    requires |from| == |to|
    requires forall q :: q in walls ==> InBounds(n, q)
    requires InBounds(n, p) ==> (p in walls <==> b.kind == Wall)
    ensures forall q :: q in ReplayedWalls(n, walls, from, to) ==> InBounds(n, q)
    ensures InBounds(n, p) ==> (p in ReplayedWalls(n, walls, from, to) <==> Replayed(b, p, from, to).kind == Wall)
    decreases |from|
  {
    if |from| > 0 {
      ReplayedWallsAt(n, b, p, walls, from[..|from| - 1], to[..|to| - 1]);
    }
  }

  /** A grid whose cells are the records of `before` replayed through the
      steps has the replayed WALL cells. */
  lemma WallsReplayed(grid: array2<Cell>, before: map<Pos, Cell>, walls: set<Pos>, from: seq<Pos>, to: seq<Pos>)
    requires IsSquare(grid) && |from| == |to|
    requires forall q :: q in walls ==> InBounds(grid.Length0, q)
    requires forall r, c :: 0 <= r < grid.Length0 && 0 <= c < grid.Length1 ==>
               && Pos(r, c) in before && (Pos(r, c) in walls <==> before[Pos(r, c)].kind == Wall)
               && grid[r, c] == Replayed(before[Pos(r, c)], Pos(r, c), from, to)
    ensures Walls(grid) == ReplayedWalls(grid.Length0, walls, from, to)
  {
    forall p ensures p in Walls(grid) <==> p in ReplayedWalls(grid.Length0, walls, from, to) {
      if InBounds(grid.Length0, p) {
        ReplayedWallsAt(grid.Length0, before[p], p, walls, from, to);
        assert p == Pos(p.row, p.col);
      } else {
        ReplayedWallsAt(grid.Length0, NewCell(), p, walls, from, to);
      }
    }
  }

  /** One obstacle's move on an `n` by `n` grid on which it may enter the
      cells `open` before the move and whose WALL cells after the move are
      `w`, with the agent at `agent` and the draws `draw`: it went from
      state `before` at cell `from` to state `after` at cell `landed` with
      outcome `outcome`. Below its speed it stayed, facing the same way;
      otherwise it took up the direction and cell its pattern decides. Its
      counter advanced or wrapped, its settings stayed, it is in a valid
      state unless it left the grid, and a move onto the grid has `forecast`
      as its prediction. */
  predicate MoveRecorded(n: int, open: set<Pos>, w: set<Pos>, agent: Pos, draw: Draws, before: ObstacleState,
                         after: ObstacleState, outcome: MoveOutcome, from: Pos, landed: Pos, forecast: seq<Pos>)
  {
    && from == before.pos && landed == after.pos && Stepped(outcome, from, landed, n)
    && IsDirection(before.direction) && DrawsOk(draw)
    && (before.counter + 1 < before.speed ==> outcome == NotMoved && after.direction == before.direction)
    && (before.counter + 1 >= before.speed ==>
          var d := Decide(open, before.pattern, from, before.direction, before.lo, before.hi, before.horizontal, agent, draw);
          landed == d.target && after.direction == d.direction)
    && after.pattern == before.pattern && after.speed == before.speed && after.lo == before.lo
    && after.hi == before.hi && after.horizontal == before.horizontal
    && after.counter == (if before.counter + 1 < before.speed then before.counter + 1 else 0)
    && (outcome != Crashed ==> after.valid)
    && (outcome == Moved ==>
          && IsDirection(after.direction)
          && forecast == Predict(n, w, after.pattern, after.speed, after.lo, after.hi, after.horizontal,
                                 Forecast(landed, after.direction, 0), PredictionSteps))
  }

  /** The first `|outcomes|` obstacles moved as recorded, from the states
      `s0` to the states `after`, on a grid with cell records `cells` and
      WALL cells `walls`, with the agent at `agent`, the k-th obstacle
      using the draws `draws[k]`; each one sees the cells left by the moves
      before its own, and its forecast the WALL cells left by its own. */
  predicate Recorded(n: int, cells: map<Pos, Cell>, walls: set<Pos>, agent: Pos, draws: seq<Draws>,
                     s0: seq<ObstacleState>, after: seq<ObstacleState>,
                     outcomes: seq<MoveOutcome>, from: seq<Pos>, landed: seq<Pos>, forecasts: seq<seq<Pos>>)
    requires |outcomes| == |from| == |landed| == |forecasts| <= |after| == |s0| == |draws|
  {
    forall k :: 0 <= k < |outcomes| ==>
      MoveRecorded(n, ReplayedOpen(cells, from[..k], landed[..k]), ReplayedWalls(n, walls, from[..k + 1], landed[..k + 1]),
                   agent, draws[k], s0[k], after[k], outcomes[k], from[k], landed[k], forecasts[k])
  }

  /** Each recorded move started on the obstacle's cell in `s0`; below its
      speed it did not move, otherwise it went to the cell its pattern
      decides on the grid left by the earlier moves; it stayed exactly when
      it did not move, and a move onto the grid went to an adjacent cell. */
  lemma RecordedSteps(n: int, cells: map<Pos, Cell>, walls: set<Pos>, agent: Pos, draws: seq<Draws>,
                      s0: seq<ObstacleState>, after: seq<ObstacleState>,
                      outcomes: seq<MoveOutcome>, from: seq<Pos>, landed: seq<Pos>, forecasts: seq<seq<Pos>>)
    requires |outcomes| == |from| == |landed| == |forecasts| <= |after| == |s0| == |draws|
    requires Recorded(n, cells, walls, agent, draws, s0, after, outcomes, from, landed, forecasts)
    ensures forall k :: 0 <= k < |outcomes| ==>
              && from[k] == s0[k].pos && landed[k] == after[k].pos
              && IsDirection(s0[k].direction) && DrawsOk(draws[k])
              && (s0[k].counter + 1 < s0[k].speed ==> outcomes[k] == NotMoved)
              && (s0[k].counter + 1 >= s0[k].speed ==>
                    landed[k] == Decide(ReplayedOpen(cells, from[..k], landed[..k]), s0[k].pattern, from[k],
                                        s0[k].direction, s0[k].lo, s0[k].hi, s0[k].horizontal, agent, draws[k]).target)
              && (outcomes[k] == NotMoved <==> landed[k] == from[k])
              && (outcomes[k] == Moved ==> Adjacent(from[k], landed[k]) && InBounds(n, landed[k]))
  {
    forall k | 0 <= k < |outcomes|
      ensures && from[k] == s0[k].pos && landed[k] == after[k].pos
              && IsDirection(s0[k].direction) && DrawsOk(draws[k])
              && (s0[k].counter + 1 < s0[k].speed ==> outcomes[k] == NotMoved)
              && (s0[k].counter + 1 >= s0[k].speed ==>
                    landed[k] == Decide(ReplayedOpen(cells, from[..k], landed[..k]), s0[k].pattern, from[k],
                                        s0[k].direction, s0[k].lo, s0[k].hi, s0[k].horizontal, agent, draws[k]).target)
              && (outcomes[k] == NotMoved <==> landed[k] == from[k])
              && (outcomes[k] == Moved ==> Adjacent(from[k], landed[k]) && InBounds(n, landed[k]))
    {
      assert MoveRecorded(n, ReplayedOpen(cells, from[..k], landed[..k]), ReplayedWalls(n, walls, from[..k + 1], landed[..k + 1]),
                          agent, draws[k], s0[k], after[k], outcomes[k], from[k], landed[k], forecasts[k]);
      StayedIffNotMoved(outcomes[k], from[k], landed[k], n);
    }
  }

  /** Recording the next obstacle's move, to state `a`. */
  lemma RecordedSnoc(n: int, cells: map<Pos, Cell>, walls: set<Pos>, agent: Pos, draws: seq<Draws>,
                     s0: seq<ObstacleState>, after: seq<ObstacleState>,
                     outcomes: seq<MoveOutcome>, from: seq<Pos>, landed: seq<Pos>, forecasts: seq<seq<Pos>>,
                     a: ObstacleState, outcome: MoveOutcome, x: Pos, y: Pos, f: seq<Pos>)
    requires |outcomes| == |from| == |landed| == |forecasts| < |after| == |s0| == |draws|
    requires Recorded(n, cells, walls, agent, draws, s0, after, outcomes, from, landed, forecasts)
    requires MoveRecorded(n, ReplayedOpen(cells, from, landed), ReplayedWalls(n, walls, from + [x], landed + [y]),
                          agent, draws[|from|], s0[|from|], a, outcome, x, y, f)
    ensures Recorded(n, cells, walls, agent, draws, s0, after[|from| := a], outcomes + [outcome], from + [x], landed + [y],
                     forecasts + [f])
  {
    var after', outcomes', from', landed', forecasts' :=
      after[|from| := a], outcomes + [outcome], from + [x], landed + [y], forecasts + [f];
    forall k | 0 <= k < |outcomes'|
      ensures MoveRecorded(n, ReplayedOpen(cells, from'[..k], landed'[..k]),
                           ReplayedWalls(n, walls, from'[..k + 1], landed'[..k + 1]), agent, draws[k], s0[k], after'[k],
                           outcomes'[k], from'[k], landed'[k], forecasts'[k])
    {
      if k < |from| {
        assert from'[..k] == from[..k] && landed'[..k] == landed[..k];
        assert from'[..k + 1] == from[..k + 1] && landed'[..k + 1] == landed[..k + 1];
      } else {
        assert from'[..k] == from && landed'[..k] == landed;
        assert from'[..k + 1] == from' && landed'[..k + 1] == landed';
      }
    }
  }

  /** The cells the obstacles `os` stand on, in order. */
  ghost function CellsOf(os: seq<DynamicObstacle>): (r: seq<Pos>)
    reads set o | o in os
    ensures |r| == |os|
    ensures forall k :: 0 <= k < |os| ==> r[k] == Pos(os[k].row, os[k].col)
  {
    if |os| == 0 then [] else CellsOf(os[..|os| - 1]) + [Pos(os[|os| - 1].row, os[|os| - 1].col)]
  }

  /** Obstacles move until one of them crashes: only the last of `outcomes`
      may be `Crashed`, and `crashed` says whether it is. */
  predicate StopsAtCrash(outcomes: seq<MoveOutcome>, crashed: bool)
  {
    if crashed then |outcomes| > 0 && outcomes[|outcomes| - 1] == Crashed && Crashed !in outcomes[..|outcomes| - 1]
    else Crashed !in outcomes
  }

  /** One more move after moves that did not crash. */
  lemma StopsAtCrashSnoc(outcomes: seq<MoveOutcome>, outcome: MoveOutcome)
    requires StopsAtCrash(outcomes, false)
    ensures StopsAtCrash(outcomes + [outcome], outcome == Crashed)
  {
    assert (outcomes + [outcome])[..|outcomes|] == outcomes;
  }

  /** Obstacle `o` is in state `s`, with trail buffer `t`, on grid `g`. */
  ghost predicate InState(o: DynamicObstacle, s: ObstacleState, t: array<Pos>, g: array2<Cell>)
    reads o
  {
    StateOf(o) == s && o.previousPositions == t && o.grid == g
  }

  /** Obstacles that all moved without crashing are in valid states. */
  lemma RecordedValid(n: int, cells: map<Pos, Cell>, walls: set<Pos>, agent: Pos, draws: seq<Draws>,
                      s0: seq<ObstacleState>, after: seq<ObstacleState>,
                      outcomes: seq<MoveOutcome>, from: seq<Pos>, landed: seq<Pos>, forecasts: seq<seq<Pos>>)
    requires |outcomes| == |from| == |landed| == |forecasts| == |after| == |s0| == |draws|
    requires Recorded(n, cells, walls, agent, draws, s0, after, outcomes, from, landed, forecasts) && Crashed !in outcomes
    ensures forall k :: 0 <= k < |after| ==> after[k].valid
  {
    forall k | 0 <= k < |after|
      ensures after[k].valid
    {
      assert outcomes[k] != Crashed;
      assert MoveRecorded(n, ReplayedOpen(cells, from[..k], landed[..k]), ReplayedWalls(n, walls, from[..k + 1], landed[..k + 1]),
                          agent, draws[k], s0[k], after[k], outcomes[k], from[k], landed[k], forecasts[k]);
    }
  }

  /** The trail buffers of the obstacles `os`, in order. */
  ghost function Trails(os: seq<DynamicObstacle>): (r: seq<array<Pos>>)
    reads set o | o in os
    ensures |r| == |os| && forall k :: 0 <= k < |os| ==> r[k] == os[k].previousPositions
  {
    if |os| == 0 then [] else Trails(os[..|os| - 1]) + [os[|os| - 1].previousPositions]
  }

  class AdaptivePathFinder {
    const grid: array2<Cell>
    const gridSize: int
    var start: Option<Pos>
    var end: Option<Pos>
    var currentPath: seq<Pos>
    var needsReplanning: bool
    var replanCount: int
    var successfulPaths: int
    var failedPaths: int
    var obstacles: seq<DynamicObstacle>

    /** The grid is square and the start and end, once set, lie on it. */
    ghost predicate Valid()
      reads this`start, this`end
    {
      && IsSquare(grid) && gridSize == grid.Length0
      && (start.Some? ==> InBounds(gridSize, start.value))
      && (end.Some? ==> InBounds(gridSize, end.value))
    }

    /** Every registered obstacle is in a valid state on this planner's grid. */
    ghost predicate ObstaclesValid()
      reads this`obstacles, obstacles
    {
      forall k :: 0 <= k < |obstacles| ==> obstacles[k].Valid() && obstacles[k].grid == grid
    }

    constructor(grid: array2<Cell>)
      requires IsSquare(grid)
      ensures Valid() && this.grid == grid
      ensures start == None && end == None && currentPath == []
      ensures !needsReplanning && replanCount == 0 && successfulPaths == 0 && failedPaths == 0
      ensures obstacles == [] && ObstaclesValid()
    {
      this.grid := grid;
      this.gridSize := grid.Length0;
      start := None;
      end := None;
      currentPath := [];
      needsReplanning := false;
      replanCount := 0;
      successfulPaths := 0;
      failedPaths := 0;
      obstacles := [];
    }

    /** Registers an obstacle and makes its cell a WALL. */
    method AddObstacle(o: DynamicObstacle)
      requires Valid() && ObstaclesValid() && o.Valid() && o.grid == grid
      modifies this`obstacles, grid
      ensures obstacles == old(obstacles) + [o] && ObstaclesValid()
      ensures Distinct(obstacles) <==> Distinct(old(obstacles)) && o !in old(obstacles)
      ensures forall r, c :: 0 <= r < gridSize && 0 <= c < gridSize ==>
                grid[r, c] == if Pos(r, c) == Pos(o.row, o.col) then old(grid[r, c]).(kind := Wall) else old(grid[r, c])
    {
      DistinctSnoc(obstacles, o);
      obstacles := obstacles + [o];
      grid[o.row, o.col] := grid[o.row, o.col].(kind := Wall);
    }

    /** Makes every obstacle's cell EMPTY and forgets all obstacles. */
    method ClearObstacles()
      requires Valid() && ObstaclesValid()
      modifies this`obstacles, grid
      ensures obstacles == [] && ObstaclesValid()
      ensures forall r, c :: 0 <= r < gridSize && 0 <= c < gridSize ==>
                grid[r, c] == if Pos(r, c) in old(CellsOf(obstacles)) then old(grid[r, c]).(kind := Empty) else old(grid[r, c])
    {
      var os := obstacles;
      ghost var cells := CellsOf(os);
      var i := 0;
      while i < |os|
        invariant 0 <= i <= |os|
        invariant forall r, c :: 0 <= r < gridSize && 0 <= c < gridSize ==>
                    grid[r, c] == if Pos(r, c) in cells[..i] then old(grid[r, c]).(kind := Empty) else old(grid[r, c])
      {
        var o := os[i];
        grid[o.row, o.col] := grid[o.row, o.col].(kind := Empty);
        assert cells[..i + 1] == cells[..i] + [Pos(o.row, o.col)];
        i := i + 1;
      }
      assert cells[..i] == cells;
      obstacles := [];
    }

    /** Moves every obstacle once, in order, with its own draws, and checks
        each one that moved against the current path; a step off the grid
        ends the update there. For the k-th obstacle, `outcomes[k]` is what
        its move did, `from[k]` and `landed[k]` its cell before and after,
        and, when it moved onto the grid, `forecasts[k]` the positions
        predicted for it right after the move, on the grid as it then was.
        The obstacles after the last one moved keep their states. */
    method UpdateObstacles(agentRow: int, agentCol: int, draws: seq<Draws>)
      returns (anyMoved: bool, crashed: bool, ghost outcomes: seq<MoveOutcome>, ghost from: seq<Pos>,
               ghost landed: seq<Pos>, ghost forecasts: seq<seq<Pos>>, ghost after: seq<ObstacleState>)
      requires Valid() && ObstaclesValid() && Distinct(obstacles)
      requires |draws| == |obstacles| && forall k :: 0 <= k < |draws| ==> DrawsOk(draws[k])
      modifies this`needsReplanning, set o | o in obstacles, set o | o in obstacles :: o.previousPositions, grid
      ensures |outcomes| == |from| == |landed| == |forecasts| <= |after| == |obstacles|
      ensures !crashed ==> ObstaclesValid() && |outcomes| == |obstacles| && Crashed !in outcomes
      ensures crashed ==> |outcomes| > 0 && outcomes[|outcomes| - 1] == Crashed && Crashed !in outcomes[..|outcomes| - 1]
      ensures anyMoved <==> Moved in outcomes
      ensures Recorded(gridSize, old(Layout(grid)), old(Walls(grid)), Pos(agentRow, agentCol), draws, old(States(obstacles)),
                       after, outcomes, from, landed, forecasts)
      ensures forall k :: 0 <= k < |obstacles| ==> StateOf(obstacles[k]) == after[k]
      ensures forall k :: |outcomes| <= k < |obstacles| ==> after[k] == old(StateOf(obstacles[k]))
      ensures forall r, c {:trigger grid[r, c]} :: 0 <= r < gridSize && 0 <= c < gridSize ==>
                grid[r, c] == Replayed(old(grid[r, c]), Pos(r, c), from, landed)
      ensures needsReplanning == (old(needsReplanning) ||
                exists k :: 0 <= k < |outcomes| && outcomes[k] == Moved && Threatened(currentPath, landed[k], forecasts[k]))
    {
      ghost var before, walls, s0, trails := Layout(grid), Walls(grid), States(obstacles), Trails(obstacles);
      WallsAreWalls(grid);
      anyMoved, crashed, outcomes, from, landed, forecasts, after :=
        MoveAll(agentRow, agentCol, draws, before, walls, s0, trails);
    }

    /** The state of the loop of `UpdateObstacles` once the first `i`
        obstacles have moved as recorded, from the grid's cells `before`,
        WALL cells `walls`, obstacle states `s0` and replanning flag `flag0`
        it started with: `after` holds every obstacle's current state and
        `trails` every obstacle's trail buffer. */
    ghost predicate Tracking(i: int, before: map<Pos, Cell>, walls: set<Pos>, agent: Pos, draws: seq<Draws>,
                             s0: seq<ObstacleState>,
                             trails: seq<array<Pos>>, flag0: bool, after: seq<ObstacleState>, outcomes: seq<MoveOutcome>,
                             from: seq<Pos>, landed: seq<Pos>, forecasts: seq<seq<Pos>>)
      reads this`start, this`end, this`obstacles, this`needsReplanning, this`currentPath, grid, set o | o in obstacles
    {
      && Valid() && Distinct(obstacles)
      && 0 <= i <= |obstacles| == |s0| == |after| == |trails| == |draws|
      && |outcomes| == |from| == |landed| == |forecasts| == i
      && (forall k :: 0 <= k < |obstacles| ==> InState(obstacles[k], after[k], trails[k], grid))
      && (forall k :: 0 <= k < |s0| ==> s0[k].valid)
      && (forall k :: i <= k < |s0| ==> after[k] == s0[k])
      && Recorded(gridSize, before, walls, agent, draws, s0, after, outcomes, from, landed, forecasts)
      && (forall r, c {:trigger grid[r, c]} :: 0 <= r < gridSize && 0 <= c < gridSize ==>
            Pos(r, c) in before && grid[r, c] == Replayed(before[Pos(r, c)], Pos(r, c), from, landed))
      && needsReplanning == (flag0 || AnyThreat(currentPath, outcomes, landed, forecasts))
    }

    /** Obstacles whose states are all valid are valid. */
    lemma AllValid(after: seq<ObstacleState>, trails: seq<array<Pos>>)
      requires |obstacles| == |after| == |trails|
      requires forall k :: 0 <= k < |obstacles| ==> InState(obstacles[k], after[k], trails[k], grid)
      requires forall k :: 0 <= k < |after| ==> after[k].valid
      ensures ObstaclesValid()
    {
    }

    /** Obstacles in the states `after` have those states. */
    lemma StatesOf(after: seq<ObstacleState>, trails: seq<array<Pos>>)
      requires |obstacles| == |after| == |trails|
      requires forall k :: 0 <= k < |obstacles| ==> InState(obstacles[k], after[k], trails[k], grid)
      ensures forall k :: 0 <= k < |obstacles| ==> StateOf(obstacles[k]) == after[k]
    {
    }

    /** The loop of `UpdateObstacles` starts from the planner's own state. */
    lemma TrackingStart(agent: Pos, draws: seq<Draws>)
      requires Valid() && ObstaclesValid() && Distinct(obstacles) && |draws| == |obstacles|
      ensures Tracking(0, Layout(grid), Walls(grid), agent, draws, States(obstacles), Trails(obstacles), needsReplanning,
                       States(obstacles), [], [], [], [])
    {
    }

    /** The loop of `UpdateObstacles`, over the grid's cells `before` and WALL
        cells `walls` as they were when it started, the obstacles' states
        `s0` and their trail buffers `trails` then; `after` holds their
        states at the end. */
    method MoveAll(agentRow: int, agentCol: int, draws: seq<Draws>, ghost before: map<Pos, Cell>, ghost walls: set<Pos>,
                   ghost s0: seq<ObstacleState>, ghost trails: seq<array<Pos>>)
      returns (anyMoved: bool, crashed: bool, ghost outcomes: seq<MoveOutcome>, ghost from: seq<Pos>,
               ghost landed: seq<Pos>, ghost forecasts: seq<seq<Pos>>, ghost after: seq<ObstacleState>)
      requires Valid() && ObstaclesValid() && Distinct(obstacles)
      requires before == Layout(grid) && walls == Walls(grid) && s0 == States(obstacles) && trails == Trails(obstacles)
      requires |draws| == |obstacles| && forall k :: 0 <= k < |draws| ==> DrawsOk(draws[k])
      requires forall q :: q in walls ==> InBounds(gridSize, q)
      requires forall p :: p in before ==> InBounds(gridSize, p)
      requires forall r, c :: 0 <= r < gridSize && 0 <= c < gridSize ==>
                 Pos(r, c) in before && (Pos(r, c) in walls <==> before[Pos(r, c)].kind == Wall)
      modifies this`needsReplanning, (set o | o in obstacles), (set t | t in trails), grid
      ensures |outcomes| == |from| == |landed| == |forecasts| <= |after| == |obstacles| == |s0|
      ensures StopsAtCrash(outcomes, crashed) && (!crashed ==> |outcomes| == |obstacles| && ObstaclesValid())
      ensures anyMoved <==> Moved in outcomes
      ensures Recorded(gridSize, before, walls, Pos(agentRow, agentCol), draws, s0, after, outcomes, from, landed, forecasts)
      ensures forall k :: 0 <= k < |obstacles| ==> StateOf(obstacles[k]) == after[k]
      ensures forall k :: |outcomes| <= k < |obstacles| ==> after[k] == s0[k]
      ensures forall r, c {:trigger grid[r, c]} :: 0 <= r < gridSize && 0 <= c < gridSize ==>
                Pos(r, c) in before && grid[r, c] == Replayed(before[Pos(r, c)], Pos(r, c), from, landed)
      ensures needsReplanning == (old(needsReplanning) || AnyThreat(currentPath, outcomes, landed, forecasts))
    {
      TrackingStart(Pos(agentRow, agentCol), draws);
      anyMoved, crashed, outcomes, from, landed, forecasts, after := Sweep(agentRow, agentCol, draws, before, walls, s0, trails);
      StatesOf(after, trails);
      if !crashed {
        RecordedValid(gridSize, before, walls, Pos(agentRow, agentCol), draws, s0, after, outcomes, from, landed, forecasts);
        AllValid(after, trails);
      }
    }

    /** The loop of `MoveAll`: moves the obstacles in order until one
        crashes or all have moved, keeping `Tracking`. */
    method Sweep(agentRow: int, agentCol: int, draws: seq<Draws>, ghost before: map<Pos, Cell>, ghost walls: set<Pos>,
                 ghost s0: seq<ObstacleState>, ghost trails: seq<array<Pos>>)
      returns (anyMoved: bool, crashed: bool, ghost outcomes: seq<MoveOutcome>, ghost from: seq<Pos>,
               ghost landed: seq<Pos>, ghost forecasts: seq<seq<Pos>>, ghost after: seq<ObstacleState>)
      requires Tracking(0, before, walls, Pos(agentRow, agentCol), draws, s0, trails, needsReplanning, s0, [], [], [], [])
      requires |draws| == |obstacles| && forall k :: 0 <= k < |draws| ==> DrawsOk(draws[k])
      requires forall q :: q in walls ==> InBounds(gridSize, q)
      requires forall p :: p in before ==> InBounds(gridSize, p)
      requires forall r, c :: 0 <= r < gridSize && 0 <= c < gridSize ==>
                 Pos(r, c) in before && (Pos(r, c) in walls <==> before[Pos(r, c)].kind == Wall)
      modifies this`needsReplanning, (set o | o in obstacles), (set t | t in trails), grid
      ensures Tracking(|outcomes|, before, walls, Pos(agentRow, agentCol), draws, s0, trails, old(needsReplanning), after, outcomes, from, landed, forecasts)
      ensures StopsAtCrash(outcomes, crashed) && (!crashed ==> |outcomes| == |obstacles|)
      ensures anyMoved <==> Moved in outcomes
    {
      ghost var flag0 := needsReplanning;
      after := s0;
      anyMoved, crashed := false, false;
      outcomes, from, landed, forecasts := [], [], [], [];
      var i := 0;
      while i < |obstacles| && !crashed
        invariant i == |outcomes|
        invariant Tracking(i, before, walls, Pos(agentRow, agentCol), draws, s0, trails, flag0, after, outcomes, from, landed, forecasts)
        invariant StopsAtCrash(outcomes, crashed)
        invariant anyMoved <==> Moved in outcomes
      {
        var outcome;
        ghost var a, here, there, forecast;
        outcome, a, here, there, forecast :=
          MoveNext(i, agentRow, agentCol, draws, before, walls, s0, trails, flag0, after, outcomes, from, landed, forecasts);
        StopsAtCrashSnoc(outcomes, outcome);
        after := after[i := a];
        outcomes, from, landed, forecasts := outcomes + [outcome], from + [here], landed + [there], forecasts + [forecast];
        crashed := outcome == Crashed;
        anyMoved := anyMoved || outcome == Moved;
        i := i + 1;
      }
    }

    /** Moves the `i`-th obstacle, the first `i` having moved as recorded,
        keeping the loop state of `UpdateObstacles`. */
    method MoveNext(i: int, agentRow: int, agentCol: int, draws: seq<Draws>, ghost before: map<Pos, Cell>,
                    ghost walls: set<Pos>, ghost s0: seq<ObstacleState>, ghost trails: seq<array<Pos>>, ghost flag0: bool,
                    ghost after: seq<ObstacleState>, ghost outcomes: seq<MoveOutcome>, ghost from: seq<Pos>,
                    ghost landed: seq<Pos>, ghost forecasts: seq<seq<Pos>>)
      returns (outcome: MoveOutcome, ghost a: ObstacleState, ghost here: Pos, ghost there: Pos, ghost forecast: seq<Pos>)
      requires Tracking(i, before, walls, Pos(agentRow, agentCol), draws, s0, trails, flag0, after, outcomes, from, landed,
                        forecasts)
      requires i < |obstacles| && DrawsOk(draws[i])
      requires forall q :: q in walls ==> InBounds(gridSize, q)
      requires forall p :: p in before ==> InBounds(gridSize, p)
      requires forall r, c :: 0 <= r < gridSize && 0 <= c < gridSize ==>
                 Pos(r, c) in before && (Pos(r, c) in walls <==> before[Pos(r, c)].kind == Wall)
      modifies this`needsReplanning, obstacles[i], obstacles[i].previousPositions, grid
      ensures Tracking(i + 1, before, walls, Pos(agentRow, agentCol), draws, s0, trails, flag0, after[i := a], outcomes + [outcome], from + [here],
                       landed + [there], forecasts + [forecast])
    {
      outcome, a, here, there, forecast :=
        MoveAndRecord(i, agentRow, agentCol, draws, before, walls, s0, trails, flag0, after, outcomes, from, landed, forecasts);
      RecordedSnoc(gridSize, before, walls, Pos(agentRow, agentCol), draws, s0, after, outcomes, from, landed, forecasts, a, outcome, here, there, forecast);
      AnyThreatSnoc(currentPath, outcomes, landed, forecasts, outcome, there, forecast);
    }

    /** Moves the `i`-th obstacle, the first `i` having moved as recorded,
        and records its move: `a` is its new state, `here` and `there` its
        cell before and after, `forecast` its prediction. `after` holds
        every obstacle's state and `trails` every obstacle's trail buffer. */
    method MoveAndRecord(i: int, agentRow: int, agentCol: int, draws: seq<Draws>, ghost before: map<Pos, Cell>,
                         ghost walls: set<Pos>, ghost s0: seq<ObstacleState>, ghost trails: seq<array<Pos>>, ghost flag0: bool,
                         ghost after: seq<ObstacleState>, ghost outcomes: seq<MoveOutcome>, ghost from: seq<Pos>,
                         ghost landed: seq<Pos>, ghost forecasts: seq<seq<Pos>>)
      returns (outcome: MoveOutcome, ghost a: ObstacleState, ghost here: Pos, ghost there: Pos, ghost forecast: seq<Pos>)
      requires Tracking(i, before, walls, Pos(agentRow, agentCol), draws, s0, trails, flag0, after, outcomes, from, landed,
                        forecasts)
      requires i < |obstacles| && DrawsOk(draws[i])
      requires forall q :: q in walls ==> InBounds(gridSize, q)
      requires forall p :: p in before ==> InBounds(gridSize, p)
      requires forall r, c :: 0 <= r < gridSize && 0 <= c < gridSize ==>
                 Pos(r, c) in before && (Pos(r, c) in walls <==> before[Pos(r, c)].kind == Wall)
      modifies this`needsReplanning, obstacles[i], obstacles[i].previousPositions, grid
      ensures there == a.pos
      ensures Valid() && Distinct(obstacles) && 0 <= i < |obstacles| == |s0| == |after| == |trails|
      ensures |outcomes| == |from| == |landed| == |forecasts| == i
      ensures forall k :: 0 <= k < |s0| ==> s0[k].valid
      ensures forall k :: i + 1 <= k < |s0| ==> after[i := a][k] == s0[k]
      ensures forall k :: 0 <= k < |obstacles| ==> InState(obstacles[k], after[i := a][k], trails[k], grid)
      ensures Recorded(gridSize, before, walls, Pos(agentRow, agentCol), draws, s0, after, outcomes, from, landed, forecasts)
      ensures MoveRecorded(gridSize, ReplayedOpen(before, from, landed), ReplayedWalls(gridSize, walls, from + [here], landed + [there]),
                           Pos(agentRow, agentCol), draws[i], s0[i], a, outcome, here, there, forecast)
      ensures forall r, c {:trigger grid[r, c]} :: 0 <= r < gridSize && 0 <= c < gridSize ==>
                Pos(r, c) in before && grid[r, c] == Replayed(before[Pos(r, c)], Pos(r, c), from + [here], landed + [there])
      ensures needsReplanning == (flag0 || AnyThreat(currentPath, outcomes, landed, forecasts) ||
                                  (outcome == Moved && Threatened(currentPath, there, forecast)))
    {
      var o := obstacles[i];
      DistinctAt(obstacles, i);
      outcome, here, forecast := MoveAndCheck(o, agentRow, agentCol, draws[i], before, walls, from, landed);
      a, there := StateOf(o), Pos(o.row, o.col);
      forall k | 0 <= k < |obstacles| && k != i
        ensures InState(obstacles[k], after[k], trails[k], grid)
      {
        assert obstacles[k] != o;
      }
    }

    /** Moves obstacle `o` once and, when it moved, checks it against the
        current path. `before`, `walls`, `from` and `to` record the grid's
        cells and WALL cells before the update and the moves made so far in
        it; `here` is the obstacle's cell before this move and `forecast`
        the positions predicted for it after a move onto the grid. */
    method MoveAndCheck(o: DynamicObstacle, agentRow: int, agentCol: int, draws: Draws, ghost before: map<Pos, Cell>,
                        ghost walls: set<Pos>, ghost from: seq<Pos>, ghost to: seq<Pos>)
      returns (outcome: MoveOutcome, ghost here: Pos, ghost forecast: seq<Pos>)
      requires Valid() && o.Valid() && o.grid == grid && DrawsOk(draws) && |from| == |to|
      requires forall q :: q in walls ==> InBounds(gridSize, q)
      requires forall p :: p in before ==> InBounds(gridSize, p)
      requires forall r, c :: 0 <= r < gridSize && 0 <= c < gridSize ==>
                 Pos(r, c) in before && (Pos(r, c) in walls <==> before[Pos(r, c)].kind == Wall)
      requires forall r, c {:trigger grid[r, c]} :: 0 <= r < gridSize && 0 <= c < gridSize ==>
                 grid[r, c] == Replayed(before[Pos(r, c)], Pos(r, c), from, to)
      modifies this`needsReplanning, o, o.previousPositions, grid
      ensures o.previousPositions == old(o.previousPositions)
      ensures MoveRecorded(gridSize, ReplayedOpen(before, from, to), ReplayedWalls(gridSize, walls, from + [here], to + [Pos(o.row, o.col)]),
                           Pos(agentRow, agentCol), draws, old(StateOf(o)), StateOf(o), outcome, here, Pos(o.row, o.col), forecast)
      ensures forall r, c {:trigger grid[r, c]} :: 0 <= r < gridSize && 0 <= c < gridSize ==>
                grid[r, c] == Replayed(before[Pos(r, c)], Pos(r, c), from + [here], to + [Pos(o.row, o.col)])
      ensures needsReplanning == (old(needsReplanning) ||
                (outcome == Moved && Threatened(currentPath, Pos(o.row, o.col), forecast)))
    {
      here := Pos(o.row, o.col);
      OpenReplayed(grid, before, from, to);
      outcome := o.Move(agentRow, agentCol, draws);
      forall r, c | 0 <= r < gridSize && 0 <= c < gridSize
        ensures grid[r, c] == Replayed(before[Pos(r, c)], Pos(r, c), from + [here], to + [Pos(o.row, o.col)])
      {
        ReplayedSnoc(before[Pos(r, c)], Pos(r, c), gridSize, walls, from, to, here, Pos(o.row, o.col));
      }
      forecast := [];
      if outcome == Moved {
        WallsReplayed(grid, before, walls, from + [here], to + [Pos(o.row, o.col)]);
        forecast := o.Forecasts(PredictionSteps);
        CheckPathCollision(o);
      }
    }

    /** Raises the replanning flag when the obstacle stands on the non-empty
        current path or one of its predicted positions does. */
    method CheckPathCollision(o: DynamicObstacle)
      requires o.Valid()
      modifies this`needsReplanning
      ensures needsReplanning == (old(needsReplanning) || Threatened(currentPath, Pos(o.row, o.col), o.Forecasts(PredictionSteps)))
    {
      if |currentPath| == 0 {
        return;
      }
      var here := Pos(o.row, o.col);
      var k := 0;
      while k < |currentPath|
        invariant 0 <= k <= |currentPath| && here !in currentPath[..k]
      {
        if currentPath[k] == here {
          needsReplanning := true;
          return;
        }
        assert currentPath[..k + 1] == currentPath[..k] + [currentPath[k]];
        k := k + 1;
      }
      assert currentPath[..k] == currentPath;
      var predictions := o.PredictPath(PredictionSteps);
      var i := 0;
      while i < |predictions|
        invariant 0 <= i <= |predictions|
        invariant forall m :: 0 <= m < i ==> predictions[m] !in currentPath
      {
        var j := 0;
        while j < |currentPath|
          invariant 0 <= j <= |currentPath| && predictions[i] !in currentPath[..j]
        {
          if currentPath[j] == predictions[i] {
            needsReplanning := true;
            return;
          }
          assert currentPath[..j + 1] == currentPath[..j] + [currentPath[j]];
          j := j + 1;
        }
        assert currentPath[..j] == currentPath;
        i := i + 1;
      }
    }

    method SetStartEnd(s: Pos, e: Pos)
      requires Valid() && InBounds(gridSize, s) && InBounds(gridSize, e)
      modifies this`start, this`end
      ensures Valid() && start == Some(s) && end == Some(e)
    {
      start := Some(s);
      end := Some(e);
    }

    /** The in-bounds cells next to `cell`, in the planner's order. */
    method GetNeighbors(cell: Pos) returns (neighbors: seq<Pos>)
      ensures neighbors == NeighborsOf(gridSize, cell, PlannerMoves)
      ensures forall y :: y in neighbors <==> InBounds(gridSize, y) && Adjacent(cell, y)
    {
      neighbors := NeighborList(gridSize, cell, PlannerMoves);
    }

    /** Follows the parent pointers back from the end, recording each cell
        and painting all but the end PATH, then puts the start in front and
        reverses the list. */
    method ReconstructPath(ghost walls: set<Pos>, ghost st: SearchState)
      requires Valid() && start.Some? && end.Some?
      requires Forest(gridSize, walls, start.value, st.g, st.par) && end.value in st.g
      requires ParentsShown(grid, st.g, st.par)
      modifies this`currentPath, grid
      ensures currentPath == Chain(gridSize, walls, start.value, st.g, st.par, end.value)
      ensures forall r, c :: 0 <= r < gridSize && 0 <= c < gridSize ==>
                grid[r, c] == WithPath(old(grid[r, c]), Pos(r, c), start.value, end.value, currentPath)
    {
      var s, t := start.value, end.value;
      var back, reachedStart := WalkBack(grid, s, t, walls, st.g, st.par);
      var path := back;
      if reachedStart {
        path := path + [s];
      }
      ReversedSnoc(back, s);
      currentPath := Reversed(path);
      forall r, c | 0 <= r < gridSize && 0 <= c < gridSize
        ensures grid[r, c] == WithPath(old(grid[r, c]), Pos(r, c), s, t, currentPath)
      {
        assert Pos(r, c) in currentPath <==> Pos(r, c) in back || Pos(r, c) == s;
      }
    }

    /** The reset sweep of a planning run followed by the start's scores:
        the grid then shows the initial search state over the swept records
        `before`, and its walls are those it had. */
    method ResetForSearch(s: Pos, t: Pos) returns (ghost before: map<Pos, Cell>, ghost walls: set<Pos>)
      requires Valid() && InBounds(gridSize, s)
      modifies grid
      ensures forall r, c :: 0 <= r < gridSize && 0 <= c < gridSize ==>
                Pos(r, c) in before && before[Pos(r, c)] == ResetForPlanning(old(grid[r, c]))
      ensures walls == old(Walls(grid)) && WallsAre(grid, walls)
      ensures Coupled(grid, before, s, t, Initial(s), GScores)
    {
      ApplyToAll(grid, ResetForPlanning);
      before := Snap(grid);
      walls := Walls(grid);
      WallsAreWalls(grid);
      assert walls == old(Walls(grid));
      grid[s.row, s.col] := grid[s.row, s.col].(gScore := 0, fScore := Manhattan(s, t));
    }

    /** A* from the start to the end. On success the found path becomes the
        current path; on failure the current path is left as it was. */
    method FindPath() returns (path: seq<Pos>, ghost st: SearchState)
      requires Valid() && start.Some? && end.Some?
      modifies this`currentPath, this`needsReplanning, this`successfulPaths, this`failedPaths, grid
      ensures var walls := old(Walls(grid));
              && TreeInv(gridSize, walls, start.value, st)
              && (|path| > 0 <==> Reachable(gridSize, walls, start.value, end.value))
              && (|path| > 0 ==>
                    && ShortestWalk(gridSize, walls, path, start.value, end.value)
                    && end.value in st.g
                    && path == Chain(gridSize, walls, start.value, st.g, st.par, end.value))
      ensures |path| > 0 ==>
                currentPath == path && !needsReplanning &&
                successfulPaths == old(successfulPaths) + 1 && failedPaths == old(failedPaths)
      ensures |path| == 0 ==>
                currentPath == old(currentPath) && needsReplanning == old(needsReplanning) &&
                successfulPaths == old(successfulPaths) && failedPaths == old(failedPaths) + 1
      ensures forall r, c :: 0 <= r < gridSize && 0 <= c < gridSize ==>
                grid[r, c] == WithPath(Shown(ResetForPlanning(old(grid[r, c])), Pos(r, c), start.value, end.value, st, GScores),
                                       Pos(r, c), start.value, end.value, path)
    {
      var s, t := start.value, end.value;
      ghost var before, walls := ResetForSearch(s, t);
      var found;
      found, st := ScoreSearch(grid, s, t, GScores, PlannerMoves, before, walls);
      if found {
        ReconstructPath(walls, st);
        needsReplanning := false;
        successfulPaths := successfulPaths + 1;
        path := currentPath;
      } else {
        failedPaths := failedPaths + 1;
        path := [];
      }
      forall r, c | 0 <= r < gridSize && 0 <= c < gridSize
        ensures grid[r, c] == WithPath(Shown(before[Pos(r, c)], Pos(r, c), s, t, st, GScores), Pos(r, c), s, t, path)
      {
      }
    }

    /** Replans when there is no current path or the replanning flag is
        raised: success (counted as a replan) makes the new shortest path
        current, failure reports false and keeps the old path. Otherwise the
        current path stands and nothing changes. */
    method AdaptPath() returns (ok: bool, ghost st: SearchState)
      requires Valid() && start.Some? && end.Some?
      modifies this`currentPath, this`needsReplanning, this`successfulPaths, this`failedPaths, this`replanCount, grid
      ensures !(|old(currentPath)| == 0 || old(needsReplanning)) ==>
                && ok && currentPath == old(currentPath) && needsReplanning == old(needsReplanning)
                && replanCount == old(replanCount)
                && successfulPaths == old(successfulPaths) && failedPaths == old(failedPaths)
                && forall r, c :: 0 <= r < gridSize && 0 <= c < gridSize ==> grid[r, c] == old(grid[r, c])
      ensures (|old(currentPath)| == 0 || old(needsReplanning)) ==>
                var walls := old(Walls(grid));
                && TreeInv(gridSize, walls, start.value, st)
                && (ok <==> Reachable(gridSize, walls, start.value, end.value))
                && (ok ==> && replanCount == old(replanCount) + 1 && !needsReplanning
                           && ShortestWalk(gridSize, walls, currentPath, start.value, end.value)
                           && end.value in st.g && currentPath == Chain(gridSize, walls, start.value, st.g, st.par, end.value)
                           && successfulPaths == old(successfulPaths) + 1 && failedPaths == old(failedPaths))
                && (!ok ==> && replanCount == old(replanCount) && currentPath == old(currentPath)
                            && needsReplanning == old(needsReplanning)
                            && successfulPaths == old(successfulPaths) && failedPaths == old(failedPaths) + 1)
                && forall r, c :: 0 <= r < gridSize && 0 <= c < gridSize ==>
                     grid[r, c] == WithPath(Shown(ResetForPlanning(old(grid[r, c])), Pos(r, c), start.value, end.value, st, GScores),
                                            Pos(r, c), start.value, end.value, if ok then currentPath else [])
    {
      if |currentPath| == 0 || needsReplanning {
        var newPath;
        newPath, st := FindPath();
        if |newPath| == 0 {
          return false, st;
        }
        replanCount := replanCount + 1;
        currentPath := newPath;
        return true, st;
      }
      ok := true;
      st := Initial(start.value);
    }

    /** The share of successful planning runs, 0 before any run. */
    function SuccessRate(): (r: real)
      reads this`successfulPaths, this`failedPaths
      ensures successfulPaths >= 0 && failedPaths >= 0 ==> 0.0 <= r <= 1.0
      ensures successfulPaths >= 0 && failedPaths >= 0 ==>
                (r == 1.0 <==> successfulPaths > 0 && failedPaths == 0) &&
                (r == 0.0 <==> successfulPaths == 0)
    {
      var total := successfulPaths + failedPaths;
      if total > 0 then successfulPaths as real / total as real else 0.0
    }
  }
}
