/** A moving obstacle: a WALL cell that walks the shared grid by one of four
    movement patterns, remembering its last few positions as a trail. The
    random draws of the RANDOM pattern and of the initial direction are
    parameters. */
module Obstacles {
  import opened Cells

  datatype MovementPattern = Linear | Random | Patrol | Chase

  /** The cells an obstacle may enter: on the grid and EMPTY, VISITED,
      CONSIDERING or PATH. */
  predicate ValidMove(grid: array2<Cell>, p: Pos)
    reads grid
    ensures ValidMove(grid, p) ==>
              0 <= p.row < grid.Length0 && 0 <= p.col < grid.Length1 && grid[p.row, p.col].kind !in {Wall, Start, End}
  {
    && 0 <= p.row < grid.Length0 && 0 <= p.col < grid.Length1
    && MayEnter(grid[p.row, p.col].kind)
  }

  /** The cell types an obstacle may enter. */
  predicate MayEnter(k: CellType) {
    k in {Empty, Visited, Considering, Path}
  }

  /** An obstacle never enters a WALL, the start or the end, and may enter
      every other cell on the grid. */
  lemma ValidMoveSparesReserved(grid: array2<Cell>, p: Pos)
    ensures ValidMove(grid, p) <==>
              0 <= p.row < grid.Length0 && 0 <= p.col < grid.Length1 &&
              grid[p.row, p.col].kind !in {Wall, Start, End}
  {
    if 0 <= p.row < grid.Length0 && 0 <= p.col < grid.Length1 {
      match grid[p.row, p.col].kind {
        case Empty =>
        case Wall =>
        case Start =>
        case End =>
        case Visited =>
        case Considering =>
        case Path =>
      }
    }
  }

  /** The cells of `grid` an obstacle may enter. The patterns below see the
      grid only through this set. */
  function Enterable(grid: array2<Cell>): (s: set<Pos>)
    reads grid
    ensures forall p :: p in s <==> ValidMove(grid, p)
  {
    var s := set r, c | 0 <= r < grid.Length0 && 0 <= c < grid.Length1 && ValidMove(grid, Pos(r, c)) :: Pos(r, c);
    assert forall p :: ValidMove(grid, p) ==> p == Pos(p.row, p.col) && p in s;
    s
  }

  /** The random draws one RANDOM step may consume, in order: whether to
      turn (a draw below 0.2), the direction turned to, and the directions
      of up to four retries. */
  datatype Draws = Draws(turn: bool, turnDir: int, retries: seq<int>)

  predicate DrawsOk(draws: Draws) {
    && IsDirection(draws.turnDir)
    && |draws.retries| >= 4
    && forall k :: 0 <= k < |draws.retries| ==> IsDirection(draws.retries[k])
  }

  /** The direction an obstacle ends up facing and the cell it heads for
      (its own cell when it stays put). Each pattern decides from the set
      `open` of cells it may enter. */
  datatype Decision = Decision(direction: int, target: Pos)

  /** LINEAR: straight on, or straight back when the cell ahead may not be
      entered; the cell behind is not checked. */
  function LinearDecision(open: set<Pos>, p: Pos, d: int): (r: Decision)
    requires IsDirection(d)
    ensures IsDirection(r.direction) && r.target == Ahead(p, r.direction)
  {
    if Ahead(p, d) in open then Decision(d, Ahead(p, d))
    else Decision((d + 2) % 4, Ahead(p, (d + 2) % 4))
  }

  /** PATROL: one step along the patrol axis; at either end of the range, or
      in front of a cell it may not enter, the obstacle turns round and steps
      the other way without checking that cell. Facing any direction but
      right (horizontal) or down (vertical) counts as facing back, and that
      direction is kept when no turn is needed. */
  function PatrolDecision(open: set<Pos>, p: Pos, d: int, lo: int, hi: int, horizontal: bool): (r: Decision)
    requires IsDirection(d)
    ensures IsDirection(r.direction) && Adjacent(p, r.target)
  {
    if horizontal then
      if d == 1 then
        var q := Pos(p.row, p.col + 1);
        if q.col > hi || q !in open then Decision(3, Pos(p.row, p.col - 1)) else Decision(1, q)
      else
        var q := Pos(p.row, p.col - 1);
        if q.col < lo || q !in open then Decision(1, Pos(p.row, p.col + 1)) else Decision(d, q)
    else
      if d == 2 then
        var q := Pos(p.row + 1, p.col);
        if q.row > hi || q !in open then Decision(0, Pos(p.row - 1, p.col)) else Decision(2, q)
      else
        var q := Pos(p.row - 1, p.col);
        if q.row < lo || q !in open then Decision(2, Pos(p.row + 1, p.col)) else Decision(d, q)
  }

  /** The retry loop of RANDOM: while the cell ahead may not be entered and
      fewer than four retries were made, face the next drawn direction. */
  function Retry(open: set<Pos>, p: Pos, d: int, retries: seq<int>, k: nat): (r: Decision)
    requires IsDirection(d) && k <= 4 <= |retries|
    requires forall j :: 0 <= j < |retries| ==> IsDirection(retries[j])
    ensures IsDirection(r.direction) && r.target == Ahead(p, r.direction)
    decreases 4 - k
  {
    if Ahead(p, d) in open || k == 4 then Decision(d, Ahead(p, d))
    else Retry(open, p, retries[k], retries, k + 1)
  }

  /** RANDOM: possibly turn, then retry drawn directions until a cell that
      may be entered is ahead; stay put (facing the last draw) if none is. */
  function RandomDecision(open: set<Pos>, p: Pos, d: int, draws: Draws): (r: Decision)
    requires IsDirection(d) && DrawsOk(draws)
    ensures IsDirection(r.direction)
    ensures r.target == p || (r.target in open && r.target == Ahead(p, r.direction))
  {
    var r := Retry(open, p, if draws.turn then draws.turnDir else d, draws.retries, 0);
    if r.target in open then r else Decision(r.direction, p)
  }

  /** The direction CHASE prefers: along the axis of the larger distance to
      the agent (the horizontal one on a tie), towards the agent. */
  function ChaseDirection(p: Pos, agent: Pos): (d: int)
    ensures IsDirection(d)
  {
    var dv := agent.row - p.row;
    var dh := agent.col - p.col;
    if Abs(dv) > Abs(dh) then (if dv > 0 then 2 else 0)
    else (if dh > 0 then 1 else 3)
  }

  /** The fallback scan of CHASE: the first direction from `i` on, other
      than the preferred one, whose cell may be entered. */
  function FirstOtherValid(open: set<Pos>, p: Pos, pref: int, i: nat): (r: Option<int>)
    requires i <= 4
    ensures r.Some? ==> i <= r.value < 4
    decreases 4 - i
  {
    if i == 4 then None
    else if i != pref && Ahead(p, i) in open then Some(i)
    else FirstOtherValid(open, p, pref, i + 1)
  }

  /** CHASE: the preferred direction if its cell may be entered, else the
      first other direction whose cell may, else stay put. */
  function ChaseDecision(open: set<Pos>, p: Pos, agent: Pos): (r: Decision)
    ensures IsDirection(r.direction)
  {
    var pref := ChaseDirection(p, agent);
    if Ahead(p, pref) in open then Decision(pref, Ahead(p, pref))
    else match FirstOtherValid(open, p, pref, 0)
      case Some(i) => Decision(i, Ahead(p, i))
      case None => Decision(pref, p)
  }

  /** The decision of one firing of `move` for each pattern. */
  function Decide(open: set<Pos>, pattern: MovementPattern, p: Pos, d: int,
                  lo: int, hi: int, horizontal: bool, agent: Pos, draws: Draws): (r: Decision)
    requires IsDirection(d) && DrawsOk(draws)
    ensures IsDirection(r.direction)
    ensures r.target == p || Adjacent(p, r.target)
  {
    match pattern
    case Linear => LinearDecision(open, p, d)
    case Random => RandomDecision(open, p, d, draws)
    case Patrol => PatrolDecision(open, p, d, lo, hi, horizontal)
    case Chase => ChaseDecision(open, p, agent)
  }

  /** LINEAR and PATROL always take one step, so a firing `move` of theirs
      always changes the position. */
  lemma SteppingPatternsAlwaysMove(open: set<Pos>, pattern: MovementPattern, p: Pos, d: int,
                                   lo: int, hi: int, horizontal: bool, agent: Pos, draws: Draws)
    requires IsDirection(d) && DrawsOk(draws) && (pattern == Linear || pattern == Patrol)
    ensures Decide(open, pattern, p, d, lo, hi, horizontal, agent, draws).target != p
  {
  }

  /** A LINEAR obstacle facing a cell it may not enter turns round even when
      the cell behind it is the end (or the start, or a WALL): the reversed
      step is taken unchecked. */
  lemma LinearBounceUnchecked(open: set<Pos>, p: Pos, d: int)
    requires IsDirection(d) && Ahead(p, d) !in open
    ensures LinearDecision(open, p, d).target == Ahead(p, (d + 2) % 4)
    ensures LinearDecision(open, p, d).direction == (d + 2) % 4
  {
  }

  /** A horizontal patrol keeps its row and a vertical one its column. */
  lemma PatrolKeepsAxis(open: set<Pos>, p: Pos, d: int, lo: int, hi: int, horizontal: bool)
    requires IsDirection(d)
    ensures horizontal ==> PatrolDecision(open, p, d, lo, hi, horizontal).target.row == p.row
    ensures !horizontal ==> PatrolDecision(open, p, d, lo, hi, horizontal).target.col == p.col
  {
  }

  /** A patrol standing at the left edge of the grid, facing right with a
      cell it may not enter on its right, steps off the grid. */
  lemma PatrolCanLeaveGrid(open: set<Pos>, p: Pos, lo: int, hi: int)
    requires p.col == 0 && Pos(p.row, 1) !in open
    ensures PatrolDecision(open, p, 1, lo, hi, true).target == Pos(p.row, -1)
  {
  }

  /** A RANDOM obstacle stays put only when the cell ahead in the turned
      direction and the cells of all four retried directions are blocked. */
  lemma {:induction false} RetryExhausted(open: set<Pos>, p: Pos, d: int, retries: seq<int>, k: nat)
    requires IsDirection(d) && k <= 4 <= |retries|
    requires forall j :: 0 <= j < |retries| ==> IsDirection(retries[j])
    requires Retry(open, p, d, retries, k).target !in open
    ensures Ahead(p, d) !in open
    ensures forall j :: k <= j < 4 ==> Ahead(p, retries[j]) !in open
    decreases 4 - k
  {
    if k < 4 && Ahead(p, d) !in open {
      RetryExhausted(open, p, retries[k], retries, k + 1);
    }
  }

  lemma RandomStaysOnlyWhenBlocked(open: set<Pos>, p: Pos, d: int, draws: Draws)
    requires IsDirection(d) && DrawsOk(draws)
    requires RandomDecision(open, p, d, draws).target == p
    ensures Ahead(p, if draws.turn then draws.turnDir else d) !in open
    ensures forall j :: 0 <= j < 4 ==> Ahead(p, draws.retries[j]) !in open
  {
    var d0 := if draws.turn then draws.turnDir else d;
    var r := Retry(open, p, d0, draws.retries, 0);
    assert r.target !in open;
    RetryExhausted(open, p, d0, draws.retries, 0);
  }

  /** The preferred CHASE direction lies on the axis of the larger distance
      (horizontal on a tie) and, unless the agent is reached, brings the
      obstacle one step closer to it. */
  lemma ChaseApproaches(p: Pos, agent: Pos)
    ensures var d := ChaseDirection(p, agent);
            && ((d == 0 || d == 2) <==> Abs(agent.row - p.row) > Abs(agent.col - p.col))
            && (p != agent ==> Manhattan(Ahead(p, d), agent) == Manhattan(p, agent) - 1)
  {
  }

  /** The fallback scan returns the lowest direction from `i` on, other than
      the preferred one, whose cell may be entered. */
  lemma {:induction false} FirstOtherValidIsFirst(open: set<Pos>, p: Pos, pref: int, i: nat)
    requires i <= 4
    ensures var r := FirstOtherValid(open, p, pref, i);
            && (r.Some? ==> r.value != pref && Ahead(p, r.value) in open)
            && (forall j :: i <= j < 4 && j != pref && (r.None? || j < r.value) ==> Ahead(p, j) !in open)
    decreases 4 - i
  {
    if i < 4 {
      FirstOtherValidIsFirst(open, p, pref, i + 1);
    }
  }

  /** CHASE moves only onto a cell that may be entered, and stays put
      exactly when all four neighbouring cells are blocked. */
  lemma ChaseMovesOnlyToValid(open: set<Pos>, p: Pos, agent: Pos)
    ensures var r := ChaseDecision(open, p, agent);
            && (r.target != p ==> r.target in open)
            && (r.target == p <==> forall j :: 0 <= j < 4 ==> Ahead(p, j) !in open)
  {
    FirstOtherValidIsFirst(open, p, ChaseDirection(p, agent), 0);
    var r := ChaseDecision(open, p, agent);
    if r.target != p {
      assert exists j :: 0 <= j < 4 && Ahead(p, j) in open && r.target == Ahead(p, j);
    }
  }

  /** What `move` did. */
  datatype MoveOutcome = NotMoved | Moved | Crashed

  /** Cell `p` after an obstacle stepped from `here` to `target`: the new
      cell becomes WALL, the old one EMPTY if it was a WALL. */
  function AfterStep(b: Cell, p: Pos, here: Pos, target: Pos): (r: Cell)
    ensures r.previous == b.previous && r.gScore == b.gScore && r.fScore == b.fScore && r.distance == b.distance
    ensures r.kind != b.kind ==> (p == target && r.kind == Wall) || (p == here && b.kind == Wall && r.kind == Empty)
  {
    if target == here then b
    else if p == target then b.(kind := Wall)
    else if p == here && b.kind == Wall then b.(kind := Empty)
    else b
  }

  /** The WALL cells of an `n` by `n` grid after an obstacle stepped from
      `here` to `target`: the old cell is no WALL any more and the new one,
      if on the grid, is. */
  function StepWalls(n: int, walls: set<Pos>, here: Pos, target: Pos): (w: set<Pos>)
    ensures here != target ==> here !in w && (target in w <==> InBounds(n, target) || target in walls)
    ensures forall p :: p != here && p != target ==> (p in w <==> p in walls)
  {
    if target == here then walls
    else (walls - {here}) + (if InBounds(n, target) then {target} else {})
  }

  /** The state `predictPath` carries from one step to the next. */
  datatype Forecast = Forecast(pos: Pos, dir: int, counter: int)

  /** max(0, min(n - 1, x)). */
  function Clamp(x: int, n: int): int {
    var m := if x < n - 1 then x else n - 1;
    if m < 0 then 0 else m
  }

  /** One iteration of the prediction loop (the `i`-th): LINEAR bounces only
      off the edge of the `n` by `n` grid and its WALL cells `walls`; PATROL bounces at the range ends
      onto the cell next to them without looking at the grid; RANDOM and
      CHASE go straight on, clamped to the grid, for three steps and then
      stay. LINEAR and PATROL follow the speed counter. */
  function PredictStep(n: int, walls: set<Pos>, pattern: MovementPattern, speed: int,
                       lo: int, hi: int, horizontal: bool, f: Forecast, i: int): (r: Forecast)
    requires IsDirection(f.dir)
    ensures IsDirection(r.dir)
  {
    if pattern != Random && pattern != Chase then
      var counter := f.counter + 1;
      if counter < speed then f.(counter := counter)
      else if pattern == Linear then
        var next := Ahead(f.pos, f.dir);
        var blocked := !InBounds(n, next) || next in walls;
        var dir := if blocked then (f.dir + 2) % 4 else f.dir;
        Forecast(Ahead(f.pos, dir), dir, 0)
      else if horizontal then
        if f.dir == 1 then
          if f.pos.col + 1 > hi then Forecast(Pos(f.pos.row, hi - 1), 3, 0) else Forecast(Pos(f.pos.row, f.pos.col + 1), 1, 0)
        else
          if f.pos.col - 1 < lo then Forecast(Pos(f.pos.row, lo + 1), 1, 0) else Forecast(Pos(f.pos.row, f.pos.col - 1), f.dir, 0)
      else
        if f.dir == 2 then
          if f.pos.row + 1 > hi then Forecast(Pos(hi - 1, f.pos.col), 0, 0) else Forecast(Pos(f.pos.row + 1, f.pos.col), 2, 0)
        else
          if f.pos.row - 1 < lo then Forecast(Pos(lo + 1, f.pos.col), 2, 0) else Forecast(Pos(f.pos.row - 1, f.pos.col), f.dir, 0)
    else if i < 3 then
      var next := Ahead(f.pos, f.dir);
      f.(pos := Pos(Clamp(next.row, n), Clamp(next.col, n)))
    else f
  }

  /** The forecast after `k` iterations. */
  function Run(n: int, walls: set<Pos>, pattern: MovementPattern, speed: int,
               lo: int, hi: int, horizontal: bool, f: Forecast, k: nat): (r: Forecast)
    requires IsDirection(f.dir)
    ensures IsDirection(r.dir)
  {
    if k == 0 then f
    else PredictStep(n, walls, pattern, speed, lo, hi, horizontal, Run(n, walls, pattern, speed, lo, hi, horizontal, f, k - 1), k - 1)
  }

  /** The `steps` predicted positions: entry `i` is the position after
      iteration `i`. */
  function Predict(n: int, walls: set<Pos>, pattern: MovementPattern, speed: int,
                   lo: int, hi: int, horizontal: bool, f: Forecast, steps: nat): (r: seq<Pos>)
    requires IsDirection(f.dir)
    ensures |r| == steps
    ensures forall i :: 0 <= i < steps ==> r[i] == Run(n, walls, pattern, speed, lo, hi, horizontal, f, i + 1).pos
  {
    if steps == 0 then []
    else Predict(n, walls, pattern, speed, lo, hi, horizontal, f, steps - 1) + [Run(n, walls, pattern, speed, lo, hi, horizontal, f, steps).pos]
  }

  /** For RANDOM and CHASE every forecast after the first step lies on the
      grid, and the forecast stops changing after three steps. */
  lemma {:induction false} UncertainForecast(n: int, walls: set<Pos>, pattern: MovementPattern, speed: int,
                                             lo: int, hi: int, horizontal: bool, f: Forecast, k: nat)
    requires IsDirection(f.dir) && (pattern == Random || pattern == Chase) && n > 0 && k >= 1
    ensures InBounds(n, Run(n, walls, pattern, speed, lo, hi, horizontal, f, k).pos)
    ensures k >= 3 ==> Run(n, walls, pattern, speed, lo, hi, horizontal, f, k) == Run(n, walls, pattern, speed, lo, hi, horizontal, f, 3)
  {
    if k > 1 {
      UncertainForecast(n, walls, pattern, speed, lo, hi, horizontal, f, k - 1);
    }
  }

  lemma UncertainPrediction(n: int, walls: set<Pos>, pattern: MovementPattern, speed: int,
                            lo: int, hi: int, horizontal: bool, f: Forecast, steps: nat)
    requires IsDirection(f.dir) && (pattern == Random || pattern == Chase) && n > 0
    ensures var ps := Predict(n, walls, pattern, speed, lo, hi, horizontal, f, steps);
            && (forall i :: 0 <= i < steps ==> InBounds(n, ps[i]))
            && (forall i :: 2 <= i < steps ==> ps[i] == ps[2])
  {
    var ps := Predict(n, walls, pattern, speed, lo, hi, horizontal, f, steps);
    forall i | 0 <= i < steps
      ensures InBounds(n, ps[i]) && (i >= 2 ==> ps[i] == ps[2])
    {
      UncertainForecast(n, walls, pattern, speed, lo, hi, horizontal, f, i + 1);
      if i >= 2 {
        UncertainForecast(n, walls, pattern, speed, lo, hi, horizontal, f, 3);
      }
    }
  }

  /** The first LINEAR forecast after a firing agrees with what `move` does
      exactly when the cell ahead is not the start or the end: the forecast
      bounces only off the edge and WALL cells. */
  lemma LinearForecastMatchesMove(grid: array2<Cell>, speed: int, lo: int, hi: int, horizontal: bool, p: Pos, d: int, counter: int)
    requires IsDirection(d) && counter + 1 >= speed && IsSquare(grid)
    ensures var ahead := Ahead(p, d);
            var reserved := InBounds(grid.Length0, ahead) && grid[ahead.row, ahead.col].kind in {Start, End};
            var agrees := Run(grid.Length0, Walls(grid), Linear, speed, lo, hi, horizontal, Forecast(p, d, counter), 1).pos == LinearDecision(Enterable(grid), p, d).target;
            agrees <==> !reserved
  {
    var ahead := Ahead(p, d);
    var back := Ahead(p, (d + 2) % 4);
    assert back != ahead by {
      assert DR[(d + 2) % 4] == -DR[d] && DC[(d + 2) % 4] == -DC[d];
    }
  }

  class DynamicObstacle {
    var row: int
    var col: int
    var direction: int
    var pattern: MovementPattern
    var speed: int
    var moveCounter: int
    const grid: array2<Cell>
    const gridSize: int
    var patrolStart: int
    var patrolEnd: int
    var patrolHorizontal: bool
    var previousPositions: array<Pos>
    var trailLength: int

    /** On a square grid, at a cell of it, facing a direction, with a speed
        of at least 1 and a trail buffer of `trailLength` (1 to 10) entries. */
    ghost predicate Valid()
      reads this
    {
      && IsSquare(grid) && gridSize == grid.Length0
      && InBounds(gridSize, Pos(row, col))
      && IsDirection(direction) && speed >= 1 && moveCounter >= 0
      && 1 <= trailLength <= 10 && previousPositions.Length == trailLength
    }

    /** A new obstacle at (row, col) with speed 1, facing the drawn
        direction, patrolling horizontally over the five columns around its
        own (cut off at the grid's edge), its whole trail at its own cell. */
    constructor(row: int, col: int, pattern: MovementPattern, grid: array2<Cell>, firstDirection: int)
      requires IsSquare(grid) && InBounds(grid.Length0, Pos(row, col)) && IsDirection(firstDirection)
      ensures Valid() && this.grid == grid
      ensures this.row == row && this.col == col && this.pattern == pattern && direction == firstDirection
      ensures speed == 1 && moveCounter == 0
      ensures patrolHorizontal && patrolStart == (if col - 2 < 0 then 0 else col - 2)
      ensures patrolEnd == (if col + 2 > grid.Length0 - 1 then grid.Length0 - 1 else col + 2)
      ensures trailLength == 5 && fresh(previousPositions)
      ensures forall i :: 0 <= i < 5 ==> previousPositions[i] == Pos(row, col)
    {
      var trail := new Pos[5];
      var i := 0;
      while i < 5
        invariant 0 <= i <= 5
        invariant forall j :: 0 <= j < i ==> trail[j] == Pos(row, col)
      {
        trail[i] := Pos(row, col);
        i := i + 1;
      }
      this.row := row;
      this.col := col;
      this.pattern := pattern;
      this.grid := grid;
      this.gridSize := grid.Length0;
      this.speed := 1;
      this.moveCounter := 0;
      this.direction := firstDirection;
      this.patrolHorizontal := true;
      this.patrolStart := if col - 2 < 0 then 0 else col - 2;
      this.patrolEnd := if col + 2 > grid.Length0 - 1 then grid.Length0 - 1 else col + 2;
      this.previousPositions := trail;
      this.trailLength := 5;
    }

    /** A patrol range is taken only when 0 <= start <= end < gridSize; it
        then also sets the direction to right (horizontal) or down. */
    method SetPatrolPath(start: int, end: int, horizontal: bool)
      requires Valid()
      modifies this
      ensures Valid()
      ensures 0 <= start <= end < gridSize ==>
                patrolHorizontal == horizontal && patrolStart == start && patrolEnd == end &&
                direction == (if horizontal then 1 else 2)
      ensures !(0 <= start <= end < gridSize) ==>
                patrolHorizontal == old(patrolHorizontal) && patrolStart == old(patrolStart) &&
                patrolEnd == old(patrolEnd) && direction == old(direction)
      ensures row == old(row) && col == old(col) && pattern == old(pattern) && speed == old(speed)
      ensures moveCounter == old(moveCounter) && previousPositions == old(previousPositions) && trailLength == old(trailLength)
    {
      if start >= 0 && end < gridSize && start <= end {
        patrolHorizontal := horizontal;
        patrolStart := start;
        patrolEnd := end;
        if horizontal {
          direction := 1;
        } else {
          direction := 2;
        }
      }
    }

    /** Sets the speed, raising a request below 1 to 1. */
    method SetSpeed(speed: int)
      requires Valid()
      modifies this`speed
      ensures Valid() && this.speed >= 1
      ensures this.speed == if speed < 1 then 1 else speed
    {
      this.speed := if speed < 1 then 1 else speed;
    }

    /** The trail length is clamped to [1, 10]; a buffer of another length
        is replaced by a new one keeping the old entries that fit and filling
        the rest with the current position. */
    method SetTrailLength(length: int)
      requires Valid()
      modifies this`trailLength, this`previousPositions
      ensures Valid()
      ensures trailLength == (if length < 1 then 1 else if length > 10 then 10 else length)
      ensures previousPositions != old(previousPositions) ==> fresh(previousPositions)
      ensures forall i :: 0 <= i < trailLength ==>
                previousPositions[i] == (if i < old(previousPositions.Length) then old(previousPositions[i]) else Pos(row, col))
    {
      var len := if length < 1 then 1 else if length > 10 then 10 else length;
      var oldTrail := previousPositions;
      if oldTrail.Length != len {
        var newTrail := new Pos[len];
        var n := if len < oldTrail.Length then len else oldTrail.Length;
        var i := 0;
        while i < n
          invariant 0 <= i <= n
          invariant forall j :: 0 <= j < i ==> newTrail[j] == oldTrail[j]
        {
          newTrail[i] := oldTrail[i];
          i := i + 1;
        }
        i := oldTrail.Length;
        while i < len
          invariant oldTrail.Length <= i && (oldTrail.Length < len ==> i <= len)
          invariant forall j :: 0 <= j < n ==> newTrail[j] == oldTrail[j]
          invariant forall j :: oldTrail.Length <= j < i && j < len ==> newTrail[j] == Pos(row, col)
        {
          newTrail[i] := Pos(row, col);
          i := i + 1;
        }
        previousPositions := newTrail;
      }
      trailLength := len;
    }

    /** Shifts the trail by one entry and records the current position at
        its head. */
    method ShiftTrail()
      requires Valid()
      modifies previousPositions
      ensures previousPositions[..] == [Pos(row, col)] + old(previousPositions[..])[..trailLength - 1]
    {
      var i := trailLength - 1;
      while i > 0
        invariant 0 <= i <= trailLength - 1
        invariant forall j :: 0 <= j <= i ==> previousPositions[j] == old(previousPositions[j])
        invariant forall j :: i < j < trailLength ==> previousPositions[j] == old(previousPositions[j - 1])
      {
        previousPositions[i] := previousPositions[i - 1];
        i := i - 1;
      }
      previousPositions[0] := Pos(row, col);
    }

    /** The RANDOM choice, retrying drawn directions in a loop. */
    method RandomTarget(here: Pos, draws: Draws) returns (decision: Decision)
      requires Valid() && DrawsOk(draws)
      ensures decision == RandomDecision(Enterable(grid), here, direction, draws)
    {
      var dir := if draws.turn then draws.turnDir else direction;
      ghost var spec := Retry(Enterable(grid), here, dir, draws.retries, 0);
      var target := Ahead(here, dir);
      if !ValidMove(grid, target) {
        var attempts := 0;
        while !ValidMove(grid, target) && attempts < 4
          invariant 0 <= attempts <= 4 && IsDirection(dir) && target == Ahead(here, dir)
          invariant Retry(Enterable(grid), here, dir, draws.retries, attempts) == spec
          decreases 4 - attempts
        {
          dir := draws.retries[attempts];
          target := Ahead(here, dir);
          attempts := attempts + 1;
        }
        if !ValidMove(grid, target) {
          target := here;
        }
      }
      decision := Decision(dir, target);
    }

    /** The CHASE choice, scanning the other directions in a loop. */
    method ChaseTarget(here: Pos, agent: Pos) returns (decision: Decision)
      requires Valid()
      ensures decision == ChaseDecision(Enterable(grid), here, agent)
    {
      var pref := ChaseDirection(here, agent);
      var dir := pref;
      var target := Ahead(here, dir);
      if !ValidMove(grid, target) {
        var i := 0;
        while i < 4
          invariant 0 <= i <= 4 && dir == pref && target == Ahead(here, pref)
          invariant FirstOtherValid(Enterable(grid), here, pref, i) == FirstOtherValid(Enterable(grid), here, pref, 0)
        {
          if i != pref {
            var test := Ahead(here, i);
            if ValidMove(grid, test) {
              target := test;
              dir := i;
              break;
            }
          }
          i := i + 1;
        }
        if !ValidMove(grid, target) {
          target := here;
        }
      }
      decision := Decision(dir, target);
    }

    /** One tick. The speed counter decides whether the obstacle acts; when
        it does, the trail shifts, the pattern picks a direction and a cell,
        and a step onto another cell clears the old cell (if a WALL) and
        makes the new one a WALL. A step off the grid fails after the old
        cell was cleared and the position updated. */
    method Move(agentRow: int, agentCol: int, draws: Draws) returns (outcome: MoveOutcome)
      requires Valid() && DrawsOk(draws)
      modifies this, previousPositions, grid
      ensures outcome != Crashed ==> Valid()
      ensures pattern == old(pattern) && speed == old(speed) && trailLength == old(trailLength)
      ensures patrolStart == old(patrolStart) && patrolEnd == old(patrolEnd) && patrolHorizontal == old(patrolHorizontal)
      ensures previousPositions == old(previousPositions)
      ensures old(moveCounter) + 1 < old(speed) ==>
                && outcome == NotMoved && moveCounter == old(moveCounter) + 1
                && row == old(row) && col == old(col) && direction == old(direction)
                && previousPositions[..] == old(previousPositions[..])
                && forall r, c :: 0 <= r < gridSize && 0 <= c < gridSize ==> grid[r, c] == old(grid[r, c])
      ensures old(moveCounter) + 1 >= old(speed) ==>
                var here := old(Pos(row, col));
                var d := old(Decide(Enterable(grid), pattern, Pos(row, col), direction, patrolStart, patrolEnd, patrolHorizontal,
                                    Pos(agentRow, agentCol), draws));
                && moveCounter == 0 && direction == d.direction && Pos(row, col) == d.target
                && previousPositions[..] == [here] + old(previousPositions[..])[..trailLength - 1]
                && outcome == (if d.target == here then NotMoved else if InBounds(gridSize, d.target) then Moved else Crashed)
                && forall r, c :: 0 <= r < gridSize && 0 <= c < gridSize ==>
                     grid[r, c] == AfterStep(old(grid[r, c]), Pos(r, c), here, d.target)
    {
      moveCounter := moveCounter + 1;
      if moveCounter < speed {
        return NotMoved;
      }
      outcome := Fire(Pos(agentRow, agentCol), draws);
    }

    /** The tick on which the speed counter fires: the counter restarts,
        the trail shifts, the pattern decides and the obstacle steps. */
    method Fire(agent: Pos, draws: Draws) returns (outcome: MoveOutcome)
      requires Valid() && DrawsOk(draws)
      modifies this`moveCounter, this`row, this`col, this`direction, previousPositions, grid
      ensures outcome != Crashed ==> Valid()
      ensures
        var here := old(Pos(row, col));
        var d := old(Decide(Enterable(grid), pattern, Pos(row, col), direction, patrolStart, patrolEnd, patrolHorizontal, agent, draws));
        && moveCounter == 0 && direction == d.direction && Pos(row, col) == d.target
        && previousPositions[..] == [here] + old(previousPositions[..])[..trailLength - 1]
        && outcome == (if d.target == here then NotMoved else if InBounds(gridSize, d.target) then Moved else Crashed)
        && forall r, c :: 0 <= r < gridSize && 0 <= c < gridSize ==>
             grid[r, c] == AfterStep(old(grid[r, c]), Pos(r, c), here, d.target)
    {
      moveCounter := 0;
      ShiftTrail();
      var decision := Choose(agent, draws);
      outcome := StepTo(decision);
    }

    /** The direction and cell the pattern picks for this firing. */
    method Choose(agent: Pos, draws: Draws) returns (decision: Decision)
      requires Valid() && DrawsOk(draws)
      ensures decision == Decide(Enterable(grid), pattern, Pos(row, col), direction, patrolStart, patrolEnd, patrolHorizontal, agent, draws)
    {
      var here := Pos(row, col);
      match pattern {
        case Linear => decision := LinearDecision(Enterable(grid), here, direction);
        case Random => decision := RandomTarget(here, draws);
        case Patrol => decision := PatrolDecision(Enterable(grid), here, direction, patrolStart, patrolEnd, patrolHorizontal);
        case Chase => decision := ChaseTarget(here, agent);
      }
    }

    /** Takes up the chosen direction and, if the chosen cell is another
        one, clears the old cell (if a WALL), moves there and makes the new
        cell a WALL; a cell off the grid fails once the position is
        updated. */
    method StepTo(decision: Decision) returns (outcome: MoveOutcome)
      requires Valid() && IsDirection(decision.direction)
      requires decision.target == Pos(row, col) || Adjacent(Pos(row, col), decision.target)
      modifies this`row, this`col, this`direction, grid
      ensures direction == decision.direction && Pos(row, col) == decision.target
      ensures outcome == (if decision.target == old(Pos(row, col)) then NotMoved
                          else if InBounds(gridSize, decision.target) then Moved else Crashed)
      ensures outcome != Crashed ==> Valid()
      ensures forall r, c :: 0 <= r < gridSize && 0 <= c < gridSize ==>
                grid[r, c] == AfterStep(old(grid[r, c]), Pos(r, c), old(Pos(row, col)), decision.target)
    {
      var here := Pos(row, col);
      direction := decision.direction;
      if decision.target == here {
        outcome := NotMoved;
      } else {
        if grid[row, col].kind == Wall {
          grid[row, col] := grid[row, col].(kind := Empty);
        }
        row, col := decision.target.row, decision.target.col;
        if !(0 <= row < gridSize && 0 <= col < gridSize) {
          outcome := Crashed;
        } else {
          grid[row, col] := grid[row, col].(kind := Wall);
          outcome := Moved;
        }
      }
    }

    /** The `steps` positions predicted from the current state. */
    ghost function Forecasts(steps: nat): (r: seq<Pos>)
      reads this, grid
      requires IsDirection(direction)
      ensures |r| == steps
    {
      Predict(gridSize, Walls(grid), pattern, speed, patrolStart, patrolEnd, patrolHorizontal, Forecast(Pos(row, col), direction, moveCounter), steps)
    }

    /** The next `steps` positions, simulated on copies of the position,
        direction and speed counter; nothing is changed. */
    method PredictPath(steps: nat) returns (predictions: seq<Pos>)
      requires Valid()
      ensures predictions == Forecasts(steps)
    {
      var f0 := Forecast(Pos(row, col), direction, moveCounter);
      predictions := [];
      var f := f0;
      var i := 0;
      while i < steps
        invariant 0 <= i <= steps && IsDirection(f.dir)
        invariant f == Run(gridSize, Walls(grid), pattern, speed, patrolStart, patrolEnd, patrolHorizontal, f0, i)
        invariant predictions == Predict(gridSize, Walls(grid), pattern, speed, patrolStart, patrolEnd, patrolHorizontal, f0, i)
      {
        f := ForecastStep(f, i);
        predictions := predictions + [f.pos];
        i := i + 1;
      }
    }

    /** One iteration of the prediction loop on the copied position,
        direction and speed counter. */
    method ForecastStep(f: Forecast, i: int) returns (r: Forecast)
      requires Valid() && IsDirection(f.dir)
      ensures r == PredictStep(gridSize, Walls(grid), pattern, speed, patrolStart, patrolEnd, patrolHorizontal, f, i)
    {
      if pattern != Random && pattern != Chase {
        var predMoveCounter := f.counter + 1;
        if predMoveCounter < speed {
          r := f.(counter := predMoveCounter);
        } else if pattern == Linear {
          r := LinearForecastStep(f, i);
        } else {
          r := PatrolForecastStep(f, i);
        }
      } else if i < 3 {
        var predictedRow := Clamp(f.pos.row + DR[f.dir], gridSize);
        var predictedCol := Clamp(f.pos.col + DC[f.dir], gridSize);
        r := Forecast(Pos(predictedRow, predictedCol), f.dir, f.counter);
      } else {
        r := f;
      }
    }

    /** A LINEAR prediction step on which the counter fires: turn around
        when the cell ahead is off the grid or a WALL, then step. */
    method LinearForecastStep(f: Forecast, i: int) returns (r: Forecast)
      requires Valid() && IsDirection(f.dir) && pattern == Linear && f.counter + 1 >= speed
      ensures r == PredictStep(gridSize, Walls(grid), pattern, speed, patrolStart, patrolEnd, patrolHorizontal, f, i)
    {
      var next := Ahead(f.pos, f.dir);
      WallAt(grid, next);
      var predictedDir := f.dir;
      if next.row < 0 || next.row >= gridSize || next.col < 0 || next.col >= gridSize ||
         grid[next.row, next.col].kind == Wall {
        predictedDir := (predictedDir + 2) % 4;
      }
      r := Forecast(Ahead(f.pos, predictedDir), predictedDir, 0);
    }

    /** A PATROL prediction step on which the counter fires: one cell along
        the axis, jumping back inside the range past either end. */
    method PatrolForecastStep(f: Forecast, i: int) returns (r: Forecast)
      requires Valid() && IsDirection(f.dir) && pattern == Patrol && f.counter + 1 >= speed
      ensures r == PredictStep(gridSize, Walls(grid), pattern, speed, patrolStart, patrolEnd, patrolHorizontal, f, i)
    {
      var predictedRow, predictedCol, predictedDir := f.pos.row, f.pos.col, f.dir;
      if patrolHorizontal {
        if predictedDir == 1 {
          predictedCol := predictedCol + 1;
          if predictedCol > patrolEnd {
            predictedDir := 3;
            predictedCol := patrolEnd - 1;
          }
        } else {
          predictedCol := predictedCol - 1;
          if predictedCol < patrolStart {
            predictedDir := 1;
            predictedCol := patrolStart + 1;
          }
        }
      } else {
        if predictedDir == 2 {
          predictedRow := predictedRow + 1;
          if predictedRow > patrolEnd {
            predictedDir := 0;
            predictedRow := patrolEnd - 1;
          }
        } else {
          predictedRow := predictedRow - 1;
          if predictedRow < patrolStart {
            predictedDir := 2;
            predictedRow := patrolStart + 1;
          }
        }
      }
      r := Forecast(Pos(predictedRow, predictedCol), predictedDir, 0);
    }
  }
}
