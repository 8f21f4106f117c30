/** The classic-search window: a 20 x 20 grid on which the user places a
    start, an end and walls by clicking, and runs Dijkstra's algorithm, A*,
    greedy best-first search or breadth-first search. Each search resets
    its own scratch fields, paints the cells it expands VISITED and the
    cells it discovers CONSIDERING, and on success paints the found path. */
module Visualizer {
  import opened Cells
  import opened GridWalks
  import opened SearchTheory
  import opened GridSearch
  import opened DiscoverySearch

  /** GRID_SIZE: the window's grid is Side x Side. */
  const Side: nat := 20

  /** The visualiser's neighbour order: up, down, left, right. */
  const VisualizerMoves: seq<(int, int)> := [(-1, 0), (1, 0), (0, -1), (0, 1)]

  /** The reset sweep each search starts with, on one cell: Dijkstra
      clears the parent and sets the distance unreached, A* clears the
      parent and sets both scores unreached, greedy best-first and
      breadth-first search only clear the parent. */
  function Reset(scoring: Scoring, c: Cell): Cell {
    match scoring
    case Distances => c.(distance := IntMax, previous := None)
    case GScores => c.(gScore := IntMax, fScore := IntMax, previous := None)
    case ParentsOnly => c.(previous := None)
  }

  /** A reset keeps the cell's type and heat value, forgets its parent and
      marks unreached exactly the scores the search uses; resetting twice is
      resetting once. */
  lemma ResetKeeps(scoring: Scoring, c: Cell)
    ensures var r := Reset(scoring, c);
            && r.kind == c.kind && r.qValue == c.qValue && r.showQValue == c.showQValue && r.previous == None
            && r.distance == (if scoring == Distances then IntMax else c.distance)
            && r.gScore == (if scoring == GScores then IntMax else c.gScore)
            && r.fScore == (if scoring == GScores then IntMax else c.fScore)
            && Reset(scoring, r) == r
  {
  }

  /** START, END and WALL cells are the user's own. */
  predicate Placed(k: CellType) {
    k == Start || k == End || k == Wall
  }

  /** clearPath on one cell: any type but START, END and WALL becomes
      EMPTY. */
  function ClearedOfSearch(c: Cell): (r: Cell)
    ensures r == c.(kind := r.kind)
    ensures Placed(r.kind) || r.kind == Empty
    ensures Placed(c.kind) ==> r == c
  {
    if Placed(c.kind) then c else c.(kind := Empty)
  }

  /** The second sweep of resetGrid on one cell: a WALL becomes EMPTY. */
  function Unwalled(c: Cell): (r: Cell)
    ensures r == c.(kind := r.kind) && r.kind != Wall
    ensures c.kind != Wall ==> r == c
  {
    if c.kind == Wall then c.(kind := Empty) else c
  }

  /** Clearing twice is clearing once, and a cleared cell shows only the
      user's types or EMPTY. */
  lemma ClearingSettles(c: Cell)
    ensures ClearedOfSearch(ClearedOfSearch(c)) == ClearedOfSearch(c)
    ensures Placed(ClearedOfSearch(c).kind) || ClearedOfSearch(c).kind == Empty
    ensures ClearedOfSearch(c).kind == c.kind <==> Placed(c.kind) || c.kind == Empty
  {
  }

  /** A grid shows START exactly at `start` and END exactly at `end`. */
  ghost predicate Markers(grid: array2<Cell>, start: Option<Pos>, end: Option<Pos>)
    reads grid
  {
    forall r, c :: 0 <= r < grid.Length0 && 0 <= c < grid.Length1 ==>
      && (grid[r, c].kind == Start <==> start == Some(Pos(r, c)))
      && (grid[r, c].kind == End <==> end == Some(Pos(r, c)))
  }

  /** At most one START cell and one END cell, never the same cell. */
  lemma {:induction false} MarkersAreUnique(grid: array2<Cell>, start: Option<Pos>, end: Option<Pos>)
    requires Markers(grid, start, end)
    requires start.Some? ==> 0 <= start.value.row < grid.Length0 && 0 <= start.value.col < grid.Length1
    ensures forall r, c, r', c' ::
              (&& 0 <= r < grid.Length0 && 0 <= c < grid.Length1 && 0 <= r' < grid.Length0 && 0 <= c' < grid.Length1
               && grid[r, c].kind == Start && grid[r', c'].kind == Start) ==> r == r' && c == c'
    ensures forall r, c, r', c' ::
              (&& 0 <= r < grid.Length0 && 0 <= c < grid.Length1 && 0 <= r' < grid.Length0 && 0 <= c' < grid.Length1
               && grid[r, c].kind == End && grid[r', c'].kind == End) ==> r == r' && c == c'
    ensures start.Some? && end.Some? ==> start != end
  {
    if start.Some? && end.Some? {
      var p := start.value;
      assert grid[p.row, p.col].kind == Start;
      assert p == Pos(p.row, p.col);
    }
  }

  /** A search's repainting leaves a cell's type alone or, away from the
      start and the end, makes it VISITED, CONSIDERING or PATH. */
  lemma RepaintKeepsMarks(b: Cell, p: Pos, s: Pos, t: Pos, st: SearchState, scoring: Scoring, path: seq<Pos>)
    ensures var k := WithPath(Shown(b, p, s, t, st, scoring), p, s, t, path).kind;
            k == b.kind || (p != s && p != t && (k == Visited || k == Considering || k == Path))
  {
  }

  /** After a search repaints the grid over the records `before`, which
      show START exactly at `s` and END exactly at `t`, so does the grid. */
  lemma KeepsMarkers(grid: array2<Cell>, before: map<Pos, Cell>, s: Pos, t: Pos, st: SearchState,
                     scoring: Scoring, path: seq<Pos>)
    requires forall r, c :: 0 <= r < grid.Length0 && 0 <= c < grid.Length1 ==>
               && Pos(r, c) in before
               && (before[Pos(r, c)].kind == Start <==> Pos(r, c) == s)
               && (before[Pos(r, c)].kind == End <==> Pos(r, c) == t)
               && grid[r, c] == WithPath(Shown(before[Pos(r, c)], Pos(r, c), s, t, st, scoring), Pos(r, c), s, t, path)
    ensures Markers(grid, Some(s), Some(t))
  {
    forall r, c | 0 <= r < grid.Length0 && 0 <= c < grid.Length1
      ensures (grid[r, c].kind == Start <==> Pos(r, c) == s) && (grid[r, c].kind == End <==> Pos(r, c) == t)
    {
      RepaintKeepsMarks(before[Pos(r, c)], Pos(r, c), s, t, st, scoring, path);
    }
  }

  /** Each cell with a parent scores one more than its parent, an adjacent
      cell of the grid (distance for Dijkstra, gScore for A*). */
  ghost predicate ScoresFollowParents(grid: array2<Cell>, scoring: Scoring)
    reads grid
  {
    forall r, c :: 0 <= r < grid.Length0 && 0 <= c < grid.Length1 && grid[r, c].previous.Some? ==>
      var q := grid[r, c].previous.value;
      && 0 <= q.row < grid.Length0 && 0 <= q.col < grid.Length1 && Adjacent(q, Pos(r, c))
      && Score(grid[r, c], scoring) == Score(grid[q.row, q.col], scoring) + 1
  }

  /** A grid showing a search tree, with a path painted on top, has scores
      that follow the parent pointers. */
  lemma TreeScoresFollowParents(grid: array2<Cell>, before: map<Pos, Cell>, s: Pos, t: Pos, st: SearchState,
                                scoring: Scoring, path: seq<Pos>, walls: set<Pos>)
    requires IsSquare(grid) && Forest(grid.Length0, walls, s, st.g, st.par)
    requires scoring != ParentsOnly
    requires forall r, c :: 0 <= r < grid.Length0 && 0 <= c < grid.Length1 ==>
               Pos(r, c) in before &&
               grid[r, c] == WithPath(Shown(before[Pos(r, c)], Pos(r, c), s, t, st, scoring), Pos(r, c), s, t, path)
    ensures ScoresFollowParents(grid, scoring)
  {
    forall r, c | 0 <= r < grid.Length0 && 0 <= c < grid.Length1 && grid[r, c].previous.Some?
      ensures var q := grid[r, c].previous.value;
              && 0 <= q.row < grid.Length0 && 0 <= q.col < grid.Length1 && Adjacent(q, Pos(r, c))
              && Score(grid[r, c], scoring) == Score(grid[q.row, q.col], scoring) + 1
    {
      var p := Pos(r, c);
      var q := st.par[p];
      assert q == Pos(q.row, q.col);
      assert grid[q.row, q.col] == WithPath(Shown(before[q], q, s, t, st, scoring), q, s, t, path);
    }
  }

  /** The cells of the window's neighbour list: at most four, and exactly
      the in-bounds cells next to `p`. */
  lemma {:induction false} NeighborsAtMost(n: int, p: Pos, dirs: seq<(int, int)>)
    ensures |NeighborsOf(n, p, dirs)| <= |dirs|
  {
    if dirs != [] {
      NeighborsAtMost(n, p, dirs[..|dirs| - 1]);
    }
  }

  /** The mouse buttons the click handler tells apart. */
  datatype Button = LeftButton | RightButton | OtherButton

  /** What a click decides: the start, the end, and the clicked cell's
      type. */
  datatype Selection = Selection(start: Option<Pos>, end: Option<Pos>, kind: CellType)

  /** The click handler on cell `p` whose type is `sel.kind`. A left click
      removes the start or the end when it is on one, else places a missing
      start, else a missing end, else toggles EMPTY and WALL; a right click
      removes a WALL. */
  function Click(sel: Selection, p: Pos, button: Button): (r: Selection)
    ensures button != LeftButton ==> r.start == sel.start && r.end == sel.end
    ensures button == LeftButton && sel.start.Some? && sel.end.Some? && sel.start != Some(p) && sel.end != Some(p) ==>
              && r.start == sel.start && r.end == sel.end
              && (r.kind == Wall <==> sel.kind == Empty)
              && (r.kind == Empty <==> sel.kind == Wall)
              && (sel.kind != Empty && sel.kind != Wall ==> r.kind == sel.kind)
    ensures r.start.Some? && r.start != sel.start ==> r.start == Some(p) && r.kind == Start
    ensures r.end.Some? && r.end != sel.end ==> r.end == Some(p) && r.kind == End
  {
    match button
    case LeftButton =>
      if sel.start == Some(p) then Selection(None, sel.end, Empty)
      else if sel.end == Some(p) then Selection(sel.start, None, Empty)
      else if sel.start == None then Selection(Some(p), sel.end, Start)
      else if sel.end == None then Selection(sel.start, Some(p), End)
      else if sel.kind == Empty then sel.(kind := Wall)
      else if sel.kind == Wall then sel.(kind := Empty)
      else sel
    case RightButton =>
      if sel.kind == Wall then sel.(kind := Empty) else sel
    case OtherButton =>
      sel
  }

  class PathFindingVisualizer {
    const grid: array2<Cell>
    var startCell: Option<Pos>
    var endCell: Option<Pos>
    var isRunning: bool

    /** The grid is Side x Side, and shows START exactly at the start and
        END exactly at the end. */
    ghost predicate Valid()
      reads this`startCell, this`endCell, grid
    {
      && grid.Length0 == Side && grid.Length1 == Side
      && (startCell.Some? ==> InBounds(Side, startCell.value))
      && (endCell.Some? ==> InBounds(Side, endCell.value))
      && Markers(grid, startCell, endCell)
    }

    /** A fresh grid of EMPTY cells with the start at (2, 2) and the end at
        (Side - 3, Side - 3). */
    constructor()
      ensures Valid() && !isRunning
      ensures startCell == Some(Pos(2, 2)) && endCell == Some(Pos(Side - 3, Side - 3))
      ensures forall r, c :: 0 <= r < Side && 0 <= c < Side ==>
                grid[r, c] == if Pos(r, c) == Pos(2, 2) then NewCell().(kind := Start)
                              else if Pos(r, c) == Pos(Side - 3, Side - 3) then NewCell().(kind := End)
                              else NewCell()
    {
      var cells := new Cell[Side, Side]((r, c) => NewCell());
      cells[2, 2] := cells[2, 2].(kind := Start);
      cells[Side - 3, Side - 3] := cells[Side - 3, Side - 3].(kind := End);
      grid := cells;
      startCell := Some(Pos(2, 2));
      endCell := Some(Pos(Side - 3, Side - 3));
      isRunning := false;
    }

    /** The in-bounds cells next to `cell`, in the order up, down, left,
        right. */
    method GetNeighbors(cell: Pos) returns (neighbors: seq<Pos>)
      ensures neighbors == NeighborsOf(Side, cell, VisualizerMoves)
      ensures |neighbors| <= 4
      ensures forall y :: y in neighbors <==> InBounds(Side, y) && Adjacent(cell, y)
    {
      neighbors := NeighborList(Side, cell, VisualizerMoves);
      NeighborsAtMost(Side, cell, VisualizerMoves);
    }

    /** Follows the parent pointers back from the end to the start,
        painting every cell strictly between them PATH. */
    method ReconstructPath(ghost walls: set<Pos>, ghost st: SearchState)
      requires Valid() && startCell.Some? && endCell.Some?
      requires Forest(Side, walls, startCell.value, st.g, st.par) && endCell.value in st.g
      requires ParentsShown(grid, st.g, st.par) && WallsAre(grid, walls)
      modifies grid
      ensures Valid() && WallsAre(grid, walls)
      ensures forall r, c :: 0 <= r < Side && 0 <= c < Side ==>
                grid[r, c] == WithPath(old(grid[r, c]), Pos(r, c), startCell.value, endCell.value,
                                       Chain(Side, walls, startCell.value, st.g, st.par, endCell.value))
    {
      var s, t := startCell.value, endCell.value;
      ghost var chain := Chain(Side, walls, s, st.g, st.par, t);
      ChainIsWalk(Side, walls, s, st.g, st.par, t);
      var back, reachedStart := WalkBack(grid, s, t, walls, st.g, st.par);
      forall r, c | 0 <= r < Side && 0 <= c < Side
        ensures grid[r, c] == WithPath(old(grid[r, c]), Pos(r, c), s, t, chain)
        ensures Pos(r, c) in chain && Pos(r, c) != s ==> Pos(r, c) !in walls
      {
        assert Pos(r, c) in chain <==> Pos(r, c) in back || Pos(r, c) == s;
        if Pos(r, c) in chain && Pos(r, c) != s {
          var i :| 0 <= i < |chain| && chain[i] == Pos(r, c);
        }
      }
    }

    /** The search's own reset sweep, then the start's scores (distance 0
        for Dijkstra; gScore 0 and fScore the heuristic for A*): the grid
        then shows the initial search state over the swept records
        `before`, and its walls are those it had. */
    method ResetScratch(scoring: Scoring) returns (ghost before: map<Pos, Cell>, ghost walls: set<Pos>)
      requires Valid() && startCell.Some? && endCell.Some?
      modifies grid
      ensures forall r, c :: 0 <= r < Side && 0 <= c < Side ==>
                && Pos(r, c) in before && before[Pos(r, c)] == Reset(scoring, old(grid[r, c]))
                && (before[Pos(r, c)].kind == Start <==> Pos(r, c) == startCell.value)
                && (before[Pos(r, c)].kind == End <==> Pos(r, c) == endCell.value)
      ensures walls == old(Walls(grid)) && WallsAre(grid, walls)
      ensures Coupled(grid, before, startCell.value, endCell.value, Initial(startCell.value), scoring)
    {
      var s, t := startCell.value, endCell.value;
      walls := Walls(grid);
      WallsAreWalls(grid);
      ApplyToAll(grid, c => Reset(scoring, c));
      before := Snap(grid);
      match scoring
      case Distances =>
        grid[s.row, s.col] := grid[s.row, s.col].(distance := 0);
      case GScores =>
        grid[s.row, s.col] := grid[s.row, s.col].(gScore := 0, fScore := Manhattan(s, t));
      case ParentsOnly =>
    }

    /** The end of every search: a found end has its path reconstructed
        and painted. START and END stay where they were and no WALL is
        painted over. */
    method Finish(found: bool, scoring: Scoring, ghost before: map<Pos, Cell>, ghost walls: set<Pos>, ghost st: SearchState)
      returns (ghost path: seq<Pos>)
      requires startCell.Some? && endCell.Some? && grid.Length0 == Side && grid.Length1 == Side
      requires InBounds(Side, startCell.value) && InBounds(Side, endCell.value)
      requires TreeInv(Side, walls, startCell.value, st) && (found ==> endCell.value in st.g)
      requires Coupled(grid, before, startCell.value, endCell.value, st, scoring) && WallsAre(grid, walls)
      requires ParentsShown(grid, st.g, st.par)
      requires forall r, c :: 0 <= r < Side && 0 <= c < Side ==>
                 && Pos(r, c) in before
                 && (before[Pos(r, c)].kind == Start <==> Pos(r, c) == startCell.value)
                 && (before[Pos(r, c)].kind == End <==> Pos(r, c) == endCell.value)
      modifies grid
      ensures Valid() && WallsAre(grid, walls)
      ensures path == if found then Chain(Side, walls, startCell.value, st.g, st.par, endCell.value) else []
      ensures forall r, c :: 0 <= r < Side && 0 <= c < Side ==>
                grid[r, c] == WithPath(Shown(before[Pos(r, c)], Pos(r, c), startCell.value, endCell.value, st, scoring),
                                       Pos(r, c), startCell.value, endCell.value, path)
    {
      var s, t := startCell.value, endCell.value;
      path := [];
      KeepsMarkers(grid, before, s, t, st, scoring, path);
      if found {
        path := Chain(Side, walls, s, st.g, st.par, t);
        ReconstructPath(walls, st);
      }
    }

    /** Dijkstra's algorithm: the cell of least distance is expanded until
        the end is polled or the frontier runs dry. The end is found exactly
        when it is reachable; its distance is then the length of a shortest
        path, which is painted, and every cell's distance is its parent's
        plus one. WALL, START and END cells keep their type. */
    method RunDijkstra() returns (found: bool, ghost st: SearchState, ghost path: seq<Pos>)
      requires Valid() && startCell.Some? && endCell.Some?
      modifies grid
      ensures Valid() && WallsAre(grid, old(Walls(grid)))
      ensures TreeInv(Side, old(Walls(grid)), startCell.value, st)
      ensures found <==> Reachable(Side, old(Walls(grid)), startCell.value, endCell.value)
      ensures found ==> endCell.value in st.g
      ensures path == if found then Chain(Side, old(Walls(grid)), startCell.value, st.g, st.par, endCell.value) else []
      ensures found ==> ShortestWalk(Side, old(Walls(grid)), path, startCell.value, endCell.value)
                        && grid[endCell.value.row, endCell.value.col].distance == |path| - 1
      ensures ScoresFollowParents(grid, Distances)
      ensures forall r, c :: 0 <= r < Side && 0 <= c < Side ==>
                grid[r, c] == WithPath(Shown(Reset(Distances, old(grid[r, c])), Pos(r, c), startCell.value, endCell.value, st, Distances),
                                       Pos(r, c), startCell.value, endCell.value, path)
    {
      var s, t := startCell.value, endCell.value;
      ghost var before, walls := ResetScratch(Distances);
      found, st := ScoreSearch(grid, s, t, Distances, VisualizerMoves, before, walls);
      TreeIsTracked(Side, walls, s, st);
      CoupledParents(grid, before, s, t, st, Distances);
      path := Finish(found, Distances, before, walls, st);
      if found {
        ChainIsWalk(Side, walls, s, st.g, st.par, t);
        assert t == Pos(t.row, t.col);
      }
      TreeScoresFollowParents(grid, before, s, t, st, Distances, path, walls);
    }

    /** A*: the cell of least gScore + heuristic is expanded until the end
        is polled or the frontier runs dry. The end is found exactly when it
        is reachable; its gScore is then the length of a shortest path,
        which is painted, and every cell's gScore is its parent's plus one.
        WALL, START and END cells keep their type. */
    method RunAStar() returns (found: bool, ghost st: SearchState, ghost path: seq<Pos>)
      requires Valid() && startCell.Some? && endCell.Some?
      modifies grid
      ensures Valid() && WallsAre(grid, old(Walls(grid)))
      ensures TreeInv(Side, old(Walls(grid)), startCell.value, st)
      ensures found <==> Reachable(Side, old(Walls(grid)), startCell.value, endCell.value)
      ensures found ==> endCell.value in st.g
      ensures path == if found then Chain(Side, old(Walls(grid)), startCell.value, st.g, st.par, endCell.value) else []
      ensures found ==> ShortestWalk(Side, old(Walls(grid)), path, startCell.value, endCell.value)
                        && grid[endCell.value.row, endCell.value.col].gScore == |path| - 1
      ensures ScoresFollowParents(grid, GScores)
      ensures forall r, c :: 0 <= r < Side && 0 <= c < Side ==>
                grid[r, c] == WithPath(Shown(Reset(GScores, old(grid[r, c])), Pos(r, c), startCell.value, endCell.value, st, GScores),
                                       Pos(r, c), startCell.value, endCell.value, path)
    {
      var s, t := startCell.value, endCell.value;
      ghost var before, walls := ResetScratch(GScores);
      found, st := ScoreSearch(grid, s, t, GScores, VisualizerMoves, before, walls);
      TreeIsTracked(Side, walls, s, st);
      CoupledParents(grid, before, s, t, st, GScores);
      path := Finish(found, GScores, before, walls, st);
      if found {
        ChainIsWalk(Side, walls, s, st.g, st.par, t);
        assert t == Pos(t.row, t.col);
      }
      TreeScoresFollowParents(grid, before, s, t, st, GScores, path, walls);
    }

    /** Greedy best-first search: the frontier cell nearest to the end is
        expanded, and the search stops as soon as the end is discovered. The
        end is found exactly when it is reachable, along the painted parent
        chain, which need not be a shortest path. Each cell enters the
        frontier at most once (`entered`, in order). WALL, START and END
        cells keep their type. */
    method RunGreedyBestFirst() returns (found: bool, ghost st: SearchState, ghost path: seq<Pos>, ghost entered: seq<Pos>)
      requires Valid() && startCell.Some? && endCell.Some?
      modifies grid
      ensures Valid() && WallsAre(grid, old(Walls(grid)))
      ensures TreeInv(Side, old(Walls(grid)), startCell.value, st)
      ensures found <==> Reachable(Side, old(Walls(grid)), startCell.value, endCell.value)
      ensures found ==> endCell.value in st.g
      ensures path == if found then Chain(Side, old(Walls(grid)), startCell.value, st.g, st.par, endCell.value) else []
      ensures found ==> WalkFrom(Side, old(Walls(grid)), path, startCell.value, endCell.value)
      ensures Logged(entered, st.g)
      ensures forall r, c :: 0 <= r < Side && 0 <= c < Side ==>
                grid[r, c] == WithPath(Shown(Reset(ParentsOnly, old(grid[r, c])), Pos(r, c), startCell.value, endCell.value, st, ParentsOnly),
                                       Pos(r, c), startCell.value, endCell.value, path)
    {
      var s, t := startCell.value, endCell.value;
      ghost var before, walls := ResetScratch(ParentsOnly);
      found, st, entered := GreedySearch(grid, s, t, VisualizerMoves, before, walls);
      path := Finish(found, ParentsOnly, before, walls, st);
    }

    /** Breadth-first search: cells are expanded in the order they were
        discovered, until the end is dequeued or the queue runs dry. The end
        is found exactly when it is reachable, and its painted parent chain
        is then a shortest path. WALL, START and END cells keep their
        type. */
    method RunBreadthFirst() returns (found: bool, ghost st: SearchState, ghost path: seq<Pos>)
      requires Valid() && startCell.Some? && endCell.Some?
      modifies grid
      ensures Valid() && WallsAre(grid, old(Walls(grid)))
      ensures TreeInv(Side, old(Walls(grid)), startCell.value, st)
      ensures found <==> Reachable(Side, old(Walls(grid)), startCell.value, endCell.value)
      ensures found ==> endCell.value in st.g
      ensures path == if found then Chain(Side, old(Walls(grid)), startCell.value, st.g, st.par, endCell.value) else []
      ensures found ==> ShortestWalk(Side, old(Walls(grid)), path, startCell.value, endCell.value)
      ensures forall r, c :: 0 <= r < Side && 0 <= c < Side ==>
                grid[r, c] == WithPath(Shown(Reset(ParentsOnly, old(grid[r, c])), Pos(r, c), startCell.value, endCell.value, st, ParentsOnly),
                                       Pos(r, c), startCell.value, endCell.value, path)
    {
      var s, t := startCell.value, endCell.value;
      ghost var before, walls := ResetScratch(ParentsOnly);
      found, st := BreadthFirstSearch(grid, s, t, VisualizerMoves, before, walls);
      path := Finish(found, ParentsOnly, before, walls, st);
    }

    /** clearPath: every cell but START, END and WALL cells becomes EMPTY. */
    method ClearPath()
      requires Valid()
      modifies grid
      ensures Valid()
      ensures forall r, c :: 0 <= r < Side && 0 <= c < Side ==> grid[r, c] == ClearedOfSearch(old(grid[r, c]))
    {
      ApplyToAll(grid, ClearedOfSearch);
    }

    /** resetGrid: clearPath, then every WALL becomes EMPTY. Afterwards
        every cell is EMPTY except the START and END cells. */
    method ResetGrid()
      requires Valid()
      modifies grid
      ensures Valid()
      ensures forall r, c :: 0 <= r < Side && 0 <= c < Side ==> grid[r, c] == Unwalled(ClearedOfSearch(old(grid[r, c])))
      ensures forall r, c :: 0 <= r < Side && 0 <= c < Side ==>
                grid[r, c].kind == if startCell == Some(Pos(r, c)) then Start
                                   else if endCell == Some(Pos(r, c)) then End
                                   else Empty
    {
      ClearPath();
      ApplyToAll(grid, Unwalled);
    }

    /** The click handler on `cell`: ignored while a search runs, otherwise
        the effect `Click` decides, on the clicked cell's type only. */
    method MousePressed(cell: Pos, button: Button)
      requires Valid() && InBounds(Side, cell)
      modifies this`startCell, this`endCell, grid
      ensures Valid()
      ensures old(isRunning) ==>
                startCell == old(startCell) && endCell == old(endCell) && grid[cell.row, cell.col] == old(grid[cell.row, cell.col])
      ensures !old(isRunning) ==>
                Selection(startCell, endCell, grid[cell.row, cell.col].kind)
                == Click(Selection(old(startCell), old(endCell), old(grid[cell.row, cell.col].kind)), cell, button)
      ensures grid[cell.row, cell.col] == old(grid[cell.row, cell.col]).(kind := grid[cell.row, cell.col].kind)
      ensures forall r, c :: 0 <= r < Side && 0 <= c < Side && Pos(r, c) != cell ==> grid[r, c] == old(grid[r, c])
    {
      if isRunning {
        return;
      }
      var r, c := cell.row, cell.col;
      match button
      case LeftButton =>
        if startCell == Some(cell) {
          grid[r, c] := grid[r, c].(kind := Empty);
          startCell := None;
        } else if endCell == Some(cell) {
          grid[r, c] := grid[r, c].(kind := Empty);
          endCell := None;
        } else if startCell == None {
          startCell := Some(cell);
          grid[r, c] := grid[r, c].(kind := Start);
        } else if endCell == None {
          endCell := Some(cell);
          grid[r, c] := grid[r, c].(kind := End);
        } else if grid[r, c].kind == Empty {
          grid[r, c] := grid[r, c].(kind := Wall);
        } else if grid[r, c].kind == Wall {
          grid[r, c] := grid[r, c].(kind := Empty);
        }
      case RightButton =>
        if grid[r, c].kind == Wall {
          grid[r, c] := grid[r, c].(kind := Empty);
        }
      case OtherButton =>
    }
  }
}
