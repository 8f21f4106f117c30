/** How a search's abstract state shows in the grid's cell records, and the
    grid helpers every search shares: the per-cell reset sweeps, the
    neighbour lists and the painting of a found path. */
module GridSearch {
  import opened Cells
  import opened GridWalks
  import opened SearchTheory

  /** Which score fields a search keeps in the cell records besides
      `previous`: gScore/fScore (both A* searches), distance (Dijkstra) or
      none (greedy best-first and breadth-first search). */
  datatype Scoring = GScores | Distances | ParentsOnly

  /** The type a cell shows during a search: the start and end keep theirs,
      expanded cells are VISITED, frontier cells CONSIDERING, the rest keep
      the type they had when the search began. */
  function SearchKind(base: CellType, p: Pos, s: Pos, t: Pos, closed: set<Pos>, open: set<Pos>): (k: CellType)
    ensures k == base || p in closed + open
    ensures p != s && p != t && p in closed ==> k == Visited
  {
    if p == s || p == t then base
    else if p in closed then Visited
    else if p in open then Considering
    else base
  }

  /** The record of cell `p` while the search is in state `st`, given its
      record `b` after the search's own reset sweep. */
  ghost function Shown(b: Cell, p: Pos, s: Pos, t: Pos, st: SearchState, scoring: Scoring): Cell {
    var score := if p in st.g then st.g[p] else IntMax;
    Cell(SearchKind(b.kind, p, s, t, st.closed, st.open),
         if p in st.par then Some(st.par[p]) else None,
         if scoring == GScores then score else b.gScore,
         if scoring != GScores then b.fScore else if p in st.g then st.g[p] + Manhattan(p, t) else IntMax,
         if scoring == Distances then score else b.distance,
         b.qValue, b.showQValue)
  }

  /** The record of cell `p` after a found path `path` is painted. */
  function WithPath(b: Cell, p: Pos, s: Pos, t: Pos, path: seq<Pos>): Cell {
    if p in path && p != s && p != t then b.(kind := Path) else b
  }

  /** The record shown during a search keeps the heat value; the start and
      the end keep their type; a parent is shown exactly for a cell that has
      one; a cell with a score shows it in the field the search uses. */
  lemma ShownKeeps(b: Cell, p: Pos, s: Pos, t: Pos, st: SearchState, scoring: Scoring)
    ensures var r := Shown(b, p, s, t, st, scoring);
            && r.qValue == b.qValue && r.showQValue == b.showQValue
            && ((p == s || p == t) ==> r.kind == b.kind)
            && (r.previous.Some? <==> p in st.par)
            && (p in st.g && scoring == Distances ==> r.distance == st.g[p] && r.gScore == b.gScore)
            && (p in st.g && scoring == GScores ==> r.gScore == st.g[p] && r.fScore == st.g[p] + Manhattan(p, t))
  {
  }

  /** Painting a path changes at most the type, to PATH, and never at the
      start, the end or a cell off the path. */
  lemma WithPathPaints(b: Cell, p: Pos, s: Pos, t: Pos, path: seq<Pos>)
    ensures var r := WithPath(b, p, s, t, path);
            && r == b.(kind := r.kind)
            && (r.kind == Path || r == b)
            && (p == s || p == t || p !in path ==> r == b)
            && (p in path && p != s && p != t ==> r.kind == Path)
  {
  }

  /** A copy of the grid's records, keyed by position. */
  ghost function Snap(grid: array2<Cell>): (m: map<Pos, Cell>)
    reads grid
    requires IsSquare(grid)
    ensures forall r, c :: 0 <= r < grid.Length0 && 0 <= c < grid.Length1 ==>
              Pos(r, c) in m && m[Pos(r, c)] == grid[r, c]
  {
    map p | p in AllPositions(grid.Length0) :: grid[p.row, p.col]
  }

  /** The grid shows the search state `st` on top of the records `before`. */
  ghost predicate Coupled(grid: array2<Cell>, before: map<Pos, Cell>, s: Pos, t: Pos, st: SearchState, scoring: Scoring)
    reads grid
  {
    forall r, c :: 0 <= r < grid.Length0 && 0 <= c < grid.Length1 ==>
      Pos(r, c) in before && grid[r, c] == Shown(before[Pos(r, c)], Pos(r, c), s, t, st, scoring)
  }

  /** The per-cell sweep every reset in the system performs: `f` is applied
      to each record, row by row. */
  method ApplyToAll(grid: array2<Cell>, f: Cell -> Cell)
    modifies grid
    ensures forall r, c :: 0 <= r < grid.Length0 && 0 <= c < grid.Length1 ==> grid[r, c] == f(old(grid[r, c]))
  {
    var r := 0;
    while r < grid.Length0
      invariant 0 <= r <= grid.Length0
      invariant forall i, j :: 0 <= i < r && 0 <= j < grid.Length1 ==> grid[i, j] == f(old(grid[i, j]))
      invariant forall i, j :: r <= i < grid.Length0 && 0 <= j < grid.Length1 ==> grid[i, j] == old(grid[i, j])
    {
      var c := 0;
      while c < grid.Length1
        invariant 0 <= c <= grid.Length1
        invariant forall i, j :: 0 <= i < r && 0 <= j < grid.Length1 ==> grid[i, j] == f(old(grid[i, j]))
        invariant forall j :: 0 <= j < c ==> grid[r, j] == f(old(grid[r, j]))
        invariant forall i, j :: r <= i < grid.Length0 && 0 <= j < grid.Length1 && (i > r || j >= c) ==> grid[i, j] == old(grid[i, j])
      {
        grid[r, c] := f(grid[r, c]);
        c := c + 1;
      }
      r := r + 1;
    }
  }

  /** The four unit moves. */
  const UnitMoves: set<(int, int)> := {(-1, 0), (0, 1), (1, 0), (0, -1)}

  /** The in-bounds cells reached from `p` by the moves `dirs`, in the order
      of `dirs`. */
  function NeighborsOf(n: int, p: Pos, dirs: seq<(int, int)>): seq<Pos> {
    if dirs == [] then []
    else
      var d := dirs[|dirs| - 1];
      var q := Pos(p.row + d.0, p.col + d.1);
      NeighborsOf(n, p, dirs[..|dirs| - 1]) + (if InBounds(n, q) then [q] else [])
  }

  lemma {:induction false} NeighborsOfMembers(n: int, p: Pos, dirs: seq<(int, int)>)
    ensures forall y :: y in NeighborsOf(n, p, dirs) <==> InBounds(n, y) && (y.row - p.row, y.col - p.col) in dirs
  {
    if dirs != [] {
      NeighborsOfMembers(n, p, dirs[..|dirs| - 1]);
      assert dirs == dirs[..|dirs| - 1] + [dirs[|dirs| - 1]];
    }
  }

  lemma AdjacentIsUnitMove(p: Pos, y: Pos)
    ensures Adjacent(p, y) <==> (y.row - p.row, y.col - p.col) in UnitMoves
  {
  }

  /** When `dirs` lists exactly the four unit moves, the neighbour list holds
      exactly the in-bounds cells adjacent to `p`. */
  lemma NeighborsAreAdjacent(n: int, p: Pos, dirs: seq<(int, int)>)
    requires forall d :: d in dirs <==> d in UnitMoves
    ensures forall y :: y in NeighborsOf(n, p, dirs) <==> InBounds(n, y) && Adjacent(p, y)
  {
    NeighborsOfMembers(n, p, dirs);
    forall y ensures Adjacent(p, y) <==> (y.row - p.row, y.col - p.col) in UnitMoves {
      AdjacentIsUnitMove(p, y);
    }
  }

  /** `r` is `xs` read backwards. */
  function Reversed(xs: seq<Pos>): (r: seq<Pos>)
    ensures |r| == |xs|
    ensures forall x :: x in r <==> x in xs
  {
    if xs == [] then [] else [xs[|xs| - 1]] + Reversed(xs[..|xs| - 1])
  }

  lemma ReversedSnoc(xs: seq<Pos>, x: Pos)
    ensures Reversed(xs + [x]) == [x] + Reversed(xs)
  {
    assert (xs + [x])[..|xs|] == xs;
  }

  /** Any non-empty set of scored cells has a cell of minimal score: what a
      priority queue's poll returns (ties broken arbitrarily). */
  lemma {:induction false} MinExists(S: set<Pos>, f: map<Pos, int>) returns (m: Pos)
    requires S != {} && S <= f.Keys
    ensures m in S && forall y :: y in S ==> f[m] <= f[y]
    decreases |S|
  {
    var x :| x in S;
    if S == {x} {
      m := x;
    } else {
      var m' := MinExists(S - {x}, f);
      m := if f[x] <= f[m'] then x else m';
    }
  }

  /** Unwinding one parent pointer while walking back from the end. */
  lemma ChainUnwind(n: int, walls: set<Pos>, s: Pos, g: map<Pos, int>, par: map<Pos, Pos>, x: Pos, chain: seq<Pos>, acc: seq<Pos>)
    requires Forest(n, walls, s, g, par) && x in g && x != s
    requires chain == Chain(n, walls, s, g, par, x) + Reversed(acc)
    ensures par[x] in g && chain == Chain(n, walls, s, g, par, par[x]) + Reversed(acc + [x])
  {
    ChainStep(n, walls, s, g, par, x);
    ReversedSnoc(acc, x);
    var rest := Chain(n, walls, s, g, par, par[x]);
    assert (rest + [x]) + Reversed(acc) == rest + ([x] + Reversed(acc));
  }

  /** The key a score-ordered priority queue compares: fScore for A*,
      distance for Dijkstra. */
  function Key(c: Cell, scoring: Scoring): int {
    if scoring == GScores then c.fScore else c.distance
  }

  /** The stored score of a cell: gScore for A*, distance for Dijkstra. */
  function Score(c: Cell, scoring: Scoring): int {
    if scoring == GScores then c.gScore else c.distance
  }

  /** The light facts about a search state that the grid steps need: every
      discovered cell is closed or on the frontier, and in bounds. */
  ghost predicate Tracked(n: int, st: SearchState) {
    && (forall x :: x in st.g <==> x in st.closed || x in st.open)
    && (forall x :: x in st.g ==> InBounds(n, x))
  }

  lemma TreeIsTracked(n: int, walls: set<Pos>, s: Pos, st: SearchState)
    requires TreeInv(n, walls, s, st)
    ensures Tracked(n, st)
    ensures forall x :: x in st.g && x != s ==> x !in walls
  {
  }

  /** What polling a score-ordered priority queue returns: a frontier cell
      whose key is no larger than any other frontier cell's. */
  lemma CoupledAt(grid: array2<Cell>, before: map<Pos, Cell>, s: Pos, t: Pos, st: SearchState, scoring: Scoring, p: Pos)
    requires Coupled(grid, before, s, t, st, scoring) && 0 <= p.row < grid.Length0 && 0 <= p.col < grid.Length1
    ensures p in before && grid[p.row, p.col] == Shown(before[p], p, s, t, st, scoring)
  {
    assert p == Pos(p.row, p.col);
  }

  method PollLowest(grid: array2<Cell>, openSet: set<Pos>, scoring: Scoring,
                    s: Pos, t: Pos, ghost before: map<Pos, Cell>, ghost st: SearchState)
    returns (current: Pos)
    requires scoring != ParentsOnly && openSet == st.open && openSet != {}
    requires Tracked(grid.Length0, st) && IsSquare(grid)
    requires Coupled(grid, before, s, t, st, scoring)
    ensures current in openSet
    ensures forall y :: y in openSet ==>
              st.g[current] + H(scoring == GScores, current, t) <= st.g[y] + H(scoring == GScores, y, t)
  {
    ghost var key := map p | p in st.open :: st.g[p] + H(scoring == GScores, p, t);
    forall y | y in openSet ensures Key(grid[y.row, y.col], scoring) == key[y] {
      CoupledAt(grid, before, s, t, st, scoring, y);
    }
    ghost var m := MinExists(st.open, key);
    current :| current in openSet &&
      forall y :: y in openSet ==> Key(grid[current.row, current.col], scoring) <= Key(grid[y.row, y.col], scoring);
  }

  /** Moving the polled cell to the closed set: it is painted VISITED
      unless it is the start or the end. */
  method CloseCell(grid: array2<Cell>, current: Pos, s: Pos, t: Pos, scoring: Scoring,
                   ghost before: map<Pos, Cell>, ghost walls: set<Pos>, ghost st: SearchState)
    requires IsSquare(grid) && current in st.open && InBounds(grid.Length0, current)
    requires current != s ==> current !in walls
    requires Coupled(grid, before, s, t, st, scoring) && WallsAre(grid, walls)
    modifies grid
    ensures Coupled(grid, before, s, t, Close(st, current), scoring) && WallsAre(grid, walls)
  {
    CoupledAt(grid, before, s, t, st, scoring, current);
    if current != s && current != t {
      grid[current.row, current.col] := grid[current.row, current.col].(kind := Visited);
    }
  }

  /** Cells other than `y` show the same record after `y` is relaxed. */
  lemma ShownAfterRelax(b: Cell, p: Pos, s: Pos, t: Pos, st: SearchState, walls: set<Pos>, cur: Pos, y: Pos, scoring: Scoring)
    requires cur in st.g && p != y
    ensures Shown(b, p, s, t, Relax(st, walls, cur, y), scoring) == Shown(b, p, s, t, st, scoring)
  {
  }

  /** The record of a neighbour `y` that gets `cur` as its parent and the
      score `tentative` through it; a new one is painted CONSIDERING unless
      it is the start or the end. */
  function Relaxed(c: Cell, cur: Pos, y: Pos, s: Pos, t: Pos, isNew: bool, tentative: int, scoring: Scoring): Cell {
    var kind := if isNew && y != s && y != t then Considering else c.kind;
    if scoring == GScores
    then c.(kind := kind, previous := Some(cur), gScore := tentative, fScore := tentative + Manhattan(y, t))
    else c.(kind := kind, previous := Some(cur), distance := tentative)
  }

  /** When the relaxation rule takes a neighbour, the record written is the
      one the relaxed search state shows. */
  lemma RelaxedIsShown(b: Cell, cur: Pos, y: Pos, s: Pos, t: Pos, st: SearchState, walls: set<Pos>, scoring: Scoring)
    requires scoring != ParentsOnly && cur in st.g && y !in st.closed && y !in walls
    requires y in st.g <==> y in st.open
    requires y !in st.open || st.g[cur] + 1 < st.g[y]
    ensures Relaxed(Shown(b, y, s, t, st, scoring), cur, y, s, t, y !in st.open, st.g[cur] + 1, scoring)
            == Shown(b, y, s, t, Relax(st, walls, cur, y), scoring)
  {
  }

  /** The neighbour step of Dijkstra and both A* searches: a closed or WALL
      neighbour is skipped; a new one is painted CONSIDERING (unless it is
      the start or the end) and joins the frontier; it then gets `current`
      as parent and the score through `current`, which a frontier neighbour
      only gets when that score is strictly lower. */
  method RelaxNeighbor(grid: array2<Cell>, current: Pos, neighbor: Pos, openSet: set<Pos>, closedSet: set<Pos>,
                       s: Pos, t: Pos, scoring: Scoring,
                       ghost before: map<Pos, Cell>, ghost walls: set<Pos>, ghost st: SearchState)
    returns (openSet': set<Pos>)
    requires scoring != ParentsOnly && IsSquare(grid)
    requires Tracked(grid.Length0, st) && current in st.closed
    requires InBounds(grid.Length0, neighbor)
    requires openSet == st.open && closedSet == st.closed
    requires Coupled(grid, before, s, t, st, scoring) && WallsAre(grid, walls)
    modifies grid
    ensures openSet' == Relax(st, walls, current, neighbor).open
    ensures Coupled(grid, before, s, t, Relax(st, walls, current, neighbor), scoring) && WallsAre(grid, walls)
  {
    ghost var st' := Relax(st, walls, current, neighbor);
    CoupledAt(grid, before, s, t, st, scoring, current);
    CoupledAt(grid, before, s, t, st, scoring, neighbor);
    assert grid[neighbor.row, neighbor.col].kind == Wall <==> neighbor in walls by {
      assert neighbor == Pos(neighbor.row, neighbor.col);
    }
    openSet' := openSet;
    if neighbor !in closedSet && grid[neighbor.row, neighbor.col].kind != Wall {
      var tentative := Score(grid[current.row, current.col], scoring) + 1;
      var c := grid[neighbor.row, neighbor.col];
      var isNew := neighbor !in openSet;
      if isNew || tentative < Score(c, scoring) {
        var v := Relaxed(c, current, neighbor, s, t, isNew, tentative, scoring);
        RelaxedIsShown(before[neighbor], current, neighbor, s, t, st, walls, scoring);
        forall q | q in before && q != neighbor
          ensures Shown(before[q], q, s, t, st', scoring) == Shown(before[q], q, s, t, st, scoring)
        {
          ShownAfterRelax(before[q], q, s, t, st, walls, current, neighbor, scoring);
        }
        WriteShown(grid, neighbor, v, s, t, scoring, before, walls, st, st');
        if isNew {
          openSet' := openSet + {neighbor};
        }
      }
    }
  }

  /** Writing the record of one cell `p`, when it is what the new search
      state `st'` shows there and every other cell shows the same under both
      states, keeps the grid coupled to the search. */
  method WriteShown(grid: array2<Cell>, p: Pos, v: Cell, s: Pos, t: Pos, scoring: Scoring,
                    ghost before: map<Pos, Cell>, ghost walls: set<Pos>, ghost st: SearchState, ghost st': SearchState)
    requires IsSquare(grid) && InBounds(grid.Length0, p) && p in before
    requires Coupled(grid, before, s, t, st, scoring) && WallsAre(grid, walls)
    requires v == Shown(before[p], p, s, t, st', scoring) && (v.kind == Wall <==> p in walls)
    requires forall q :: q in before && q != p ==> Shown(before[q], q, s, t, st', scoring) == Shown(before[q], q, s, t, st, scoring)
    modifies grid
    ensures grid[p.row, p.col] == v
    ensures Coupled(grid, before, s, t, st', scoring) && WallsAre(grid, walls)
  {
    grid[p.row, p.col] := v;
    forall r, c | 0 <= r < grid.Length0 && 0 <= c < grid.Length1
      ensures Pos(r, c) in before && grid[r, c] == Shown(before[Pos(r, c)], Pos(r, c), s, t, st', scoring)
      ensures grid[r, c].kind == Wall <==> Pos(r, c) in walls
    {
      if Pos(r, c) == p {
        assert p == Pos(p.row, p.col);
      }
    }
  }

  /** The grid shows `path` painted on top of the records `before`. */
  ghost predicate PaintedOver(grid: array2<Cell>, before: map<Pos, Cell>, s: Pos, t: Pos, path: seq<Pos>)
    reads grid
  {
    forall r, c :: 0 <= r < grid.Length0 && 0 <= c < grid.Length1 ==>
      Pos(r, c) in before && grid[r, c] == WithPath(before[Pos(r, c)], Pos(r, c), s, t, path)
  }

  /** One step of walking a found path back: the cell is painted PATH
      unless it is the start or the end. */
  method PaintPathCell(grid: array2<Cell>, cell: Pos, s: Pos, t: Pos, ghost before: map<Pos, Cell>, ghost path: seq<Pos>,
                       ghost g: map<Pos, int>, ghost par: map<Pos, Pos>)
    requires InBounds(grid.Length0, cell) && IsSquare(grid) && cell in g
    requires PaintedOver(grid, before, s, t, path) && ParentsShown(grid, g, par)
    modifies grid
    ensures PaintedOver(grid, before, s, t, path + [cell]) && ParentsShown(grid, g, par)
    ensures grid[cell.row, cell.col].previous == if cell in par then Some(par[cell]) else None
  {
    if cell != t && cell != s {
      grid[cell.row, cell.col] := grid[cell.row, cell.col].(kind := Path);
    }
    forall r, c | 0 <= r < grid.Length0 && 0 <= c < grid.Length1
      ensures Pos(r, c) in before && grid[r, c] == WithPath(before[Pos(r, c)], Pos(r, c), s, t, path + [cell])
    {
      assert Pos(r, c) in path + [cell] <==> Pos(r, c) in path || Pos(r, c) == cell;
      if Pos(r, c) == cell {
        assert cell == Pos(cell.row, cell.col);
      }
    }
  }

  /** Relaxing the `i`-th neighbour of the cell being expanded settles it. */
  lemma RelaxNext(n: int, walls: set<Pos>, s: Pos, st: SearchState, cur: Pos, neighbors: seq<Pos>, i: int)
    requires 0 <= i < |neighbors| && InBounds(n, neighbors[i]) && Adjacent(cur, neighbors[i])
    requires Expanding(n, walls, s, st, true, cur, neighbors[..i])
    ensures Tracked(n, st) && cur in st.closed
    ensures Expanding(n, walls, s, Relax(st, walls, cur, neighbors[i]), true, cur, neighbors[..i + 1])
    ensures Relax(st, walls, cur, neighbors[i]).closed == st.closed
  {
    TreeIsTracked(n, walls, s, st);
    RelaxSettles(n, walls, s, st, cur, neighbors[..i], neighbors[i]);
    assert neighbors[..i + 1] == neighbors[..i] + [neighbors[i]];
  }

  /** The relaxation loop over the neighbours of the polled cell, shared by
      Dijkstra and both A* searches; `neighbors` is the search's own
      neighbour list of `current`. */
  method RelaxAll(grid: array2<Cell>, current: Pos, neighbors: seq<Pos>, openSet: set<Pos>, closedSet: set<Pos>,
                  s: Pos, t: Pos, scoring: Scoring,
                  ghost before: map<Pos, Cell>, ghost walls: set<Pos>, ghost st: SearchState)
    returns (openSet': set<Pos>, ghost st': SearchState)
    requires scoring != ParentsOnly && IsSquare(grid)
    requires forall y :: y in neighbors <==> InBounds(grid.Length0, y) && Adjacent(current, y)
    requires Expanding(grid.Length0, walls, s, st, true, current, [])
    requires openSet == st.open && closedSet == st.closed
    requires Coupled(grid, before, s, t, st, scoring) && WallsAre(grid, walls)
    modifies grid
    ensures Frontier(grid.Length0, walls, s, st', true) && st'.closed == st.closed
    ensures openSet' == st'.open
    ensures Coupled(grid, before, s, t, st', scoring) && WallsAre(grid, walls)
  {
    openSet', st' := openSet, st;
    var i := 0;
    while i < |neighbors|
      invariant 0 <= i <= |neighbors|
      invariant Expanding(grid.Length0, walls, s, st', true, current, neighbors[..i])
      invariant openSet' == st'.open && closedSet == st'.closed
      invariant Coupled(grid, before, s, t, st', scoring) && WallsAre(grid, walls)
    {
      assert neighbors[i] in neighbors;
      RelaxNext(grid.Length0, walls, s, st', current, neighbors, i);
      openSet' := RelaxNeighbor(grid, current, neighbors[i], openSet', closedSet, s, t, scoring, before, walls, st');
      st' := Relax(st', walls, current, neighbors[i]);
      i := i + 1;
    }
    assert neighbors[..i] == neighbors;
    FinishExpanding(grid.Length0, walls, s, st', true, current, neighbors);
  }

  /** Expanding a polled cell whose score is optimal (Dijkstra and both A*
      searches): it is closed and painted, then every neighbour is relaxed. */
  method ExpandCell(grid: array2<Cell>, current: Pos, neighbors: seq<Pos>, openSet: set<Pos>, closedSet: set<Pos>,
                    s: Pos, t: Pos, scoring: Scoring,
                    ghost before: map<Pos, Cell>, ghost walls: set<Pos>, ghost st: SearchState)
    returns (openSet': set<Pos>, closedSet': set<Pos>, ghost st': SearchState)
    requires scoring != ParentsOnly && IsSquare(grid)
    requires Frontier(grid.Length0, walls, s, st, true) && current in st.open
    requires forall q :: WalkFrom(grid.Length0, walls, q, s, current) ==> |q| - 1 >= st.g[current]
    requires forall y :: y in neighbors <==> InBounds(grid.Length0, y) && Adjacent(current, y)
    requires openSet == st.open && closedSet == st.closed
    requires Coupled(grid, before, s, t, st, scoring) && WallsAre(grid, walls)
    modifies grid
    ensures Frontier(grid.Length0, walls, s, st', true)
    ensures openSet' == st'.open && closedSet' == st'.closed && closedSet' == closedSet + {current}
    ensures Coupled(grid, before, s, t, st', scoring) && WallsAre(grid, walls)
  {
    TreeIsTracked(grid.Length0, walls, s, st);
    CloseStartsExpanding(grid.Length0, walls, s, st, true, current);
    CloseCell(grid, current, s, t, scoring, before, walls, st);
    ghost var closed := Close(st, current);
    openSet', closedSet' := openSet - {current}, closedSet + {current};
    openSet', st' := RelaxAll(grid, current, neighbors, openSet', closedSet', s, t, scoring, before, walls, closed);
  }

  /** The in-bounds cells one move from `cell`, trying the moves `dirs` in
      order: the neighbour list of every search. */
  method NeighborList(n: int, cell: Pos, dirs: seq<(int, int)>) returns (neighbors: seq<Pos>)
    ensures neighbors == NeighborsOf(n, cell, dirs)
    ensures (forall d :: d in dirs <==> d in UnitMoves) ==>
              forall y :: y in neighbors <==> InBounds(n, y) && Adjacent(cell, y)
  {
    neighbors := [];
    var i := 0;
    while i < |dirs|
      invariant 0 <= i <= |dirs|
      invariant neighbors == NeighborsOf(n, cell, dirs[..i])
    {
      var newRow := cell.row + dirs[i].0;
      var newCol := cell.col + dirs[i].1;
      if 0 <= newRow < n && 0 <= newCol < n {
        neighbors := neighbors + [Pos(newRow, newCol)];
      }
      assert dirs[..i + 1][..i] == dirs[..i];
      i := i + 1;
    }
    assert dirs[..i] == dirs;
    if forall d :: d in dirs <==> d in UnitMoves {
      NeighborsAreAdjacent(n, cell, dirs);
    }
  }

  /** The search loop of Dijkstra and both A* searches, from the state where
      only the start is on the frontier until the end is polled (`found`)
      or the frontier runs dry. The polled end has an optimal score; a dry
      frontier means the end cannot be reached. */
  method ScoreSearch(grid: array2<Cell>, s: Pos, t: Pos, scoring: Scoring, dirs: seq<(int, int)>,
                     ghost before: map<Pos, Cell>, ghost walls: set<Pos>)
    returns (found: bool, ghost st: SearchState)
    requires scoring != ParentsOnly && IsSquare(grid) && InBounds(grid.Length0, s)
    requires forall d :: d in dirs <==> d in UnitMoves
    requires Coupled(grid, before, s, t, Initial(s), scoring) && WallsAre(grid, walls)
    modifies grid
    ensures TreeInv(grid.Length0, walls, s, st)
    ensures found <==> Reachable(grid.Length0, walls, s, t)
    ensures found ==> t in st.open && ShortestWalk(grid.Length0, walls, Chain(grid.Length0, walls, s, st.g, st.par, t), s, t)
    ensures Coupled(grid, before, s, t, st, scoring) && WallsAre(grid, walls) && ParentsShown(grid, st.g, st.par)
  {
    var n := grid.Length0;
    var openSet: set<Pos> := {s};
    var closedSet: set<Pos> := {};
    st := Initial(s);
    InitialFrontier(n, walls, s, true);
    while openSet != {}
      invariant Frontier(n, walls, s, st, true)
      invariant openSet == st.open && closedSet == st.closed && t !in closedSet
      invariant Coupled(grid, before, s, t, st, scoring) && WallsAre(grid, walls)
      decreases AllPositions(n) - closedSet
    {
      TreeIsTracked(n, walls, s, st);
      var current := PollLowest(grid, openSet, scoring, s, t, before, st);
      PollIsOptimal(n, walls, s, t, scoring == GScores, st, current);
      if current == t {
        ChainIsShortest(n, walls, s, t, st);
        CoupledParents(grid, before, s, t, st, scoring);
        return true, st;
      }
      InAllPositions(n, current);
      var neighbors := NeighborList(n, current, dirs);
      openSet, closedSet, st := ExpandCell(grid, current, neighbors, openSet, closedSet, s, t, scoring, before, walls, st);
    }
    ExhaustedMeansUnreachable(n, walls, s, t, st, true);
    TreeIsTracked(n, walls, s, st);
    CoupledParents(grid, before, s, t, st, scoring);
    found := false;
  }

  /** The grid's parent pointers are those of the search state. */
  ghost predicate ParentsShown(grid: array2<Cell>, g: map<Pos, int>, par: map<Pos, Pos>)
    reads grid
  {
    forall p :: p in g ==>
      && 0 <= p.row < grid.Length0 && 0 <= p.col < grid.Length1
      && grid[p.row, p.col].previous == (if p in par then Some(par[p]) else None)
  }

  /** Walking a found path back from the end along the parent pointers,
      shared by every search: each cell met before the start is recorded
      (end first) and, unless it is the end, painted PATH. */
  method WalkBack(grid: array2<Cell>, s: Pos, t: Pos, ghost walls: set<Pos>, ghost g: map<Pos, int>, ghost par: map<Pos, Pos>)
    returns (back: seq<Pos>, reachedStart: bool)
    requires IsSquare(grid) && Forest(grid.Length0, walls, s, g, par) && t in g
    requires ParentsShown(grid, g, par)
    modifies grid
    ensures reachedStart && Chain(grid.Length0, walls, s, g, par, t) == [s] + Reversed(back)
    ensures forall r, c :: 0 <= r < grid.Length0 && 0 <= c < grid.Length1 ==>
              grid[r, c] == WithPath(old(grid[r, c]), Pos(r, c), s, t, back)
  {
    ghost var chain := Chain(grid.Length0, walls, s, g, par, t);
    ghost var before := Snap(grid);
    back := [];
    var current: Option<Pos> := Some(t);
    while current.Some? && current.value != s
      invariant current.Some? && current.value in g
      invariant chain == Chain(grid.Length0, walls, s, g, par, current.value) + Reversed(back)
      invariant PaintedOver(grid, before, s, t, back) && ParentsShown(grid, g, par)
      decreases g[current.value]
    {
      var c := current.value;
      ChainUnwind(grid.Length0, walls, s, g, par, c, chain, back);
      PaintPathCell(grid, c, s, t, before, back, g, par);
      back := back + [c];
      current := grid[c.row, c.col].previous;
    }
    reachedStart := current.Some? && current.value == s;
    ChainStep(grid.Length0, walls, s, g, par, s);
  }

  lemma CoupledParents(grid: array2<Cell>, before: map<Pos, Cell>, s: Pos, t: Pos, st: SearchState, scoring: Scoring)
    requires Coupled(grid, before, s, t, st, scoring) && Tracked(grid.Length0, st) && IsSquare(grid)
    ensures ParentsShown(grid, st.g, st.par)
  {
    forall p | p in st.g
      ensures grid[p.row, p.col].previous == (if p in st.par then Some(st.par[p]) else None)
    {
      CoupledAt(grid, before, s, t, st, scoring, p);
    }
  }
}
