/** The two searches of the visualiser that keep no scores in the cell
    records: breadth-first search, whose first-in first-out queue still
    delivers shortest paths, and greedy best-first search, which polls the
    frontier cell nearest to the end and stops as soon as it discovers the
    end. Both take a neighbour only once, with the cell being expanded as
    its parent. */
module DiscoverySearch {
  import opened Cells
  import opened GridWalks
  import opened SearchTheory
  import opened GridSearch

  /** Cells other than `y` show the same record after `y` is discovered. */
  lemma ShownAfterDiscover(b: Cell, p: Pos, s: Pos, t: Pos, st: SearchState, walls: set<Pos>, cur: Pos, y: Pos)
    requires cur in st.g && p != y
    ensures Shown(b, p, s, t, Discover(st, walls, cur, y), ParentsOnly) == Shown(b, p, s, t, st, ParentsOnly)
  {
  }

  /** The neighbour step of both searches: a neighbour already discovered
      (`known`) or a WALL is skipped; any other gets `current` as parent and
      is painted CONSIDERING unless it is the end. */
  method DiscoverNeighbor(grid: array2<Cell>, current: Pos, neighbor: Pos, known: set<Pos>,
                          s: Pos, t: Pos, ghost before: map<Pos, Cell>, ghost walls: set<Pos>, ghost st: SearchState)
    returns (taken: bool)
    requires IsSquare(grid) && Tracked(grid.Length0, st) && current in st.closed && s in st.g
    requires InBounds(grid.Length0, neighbor) && known == st.g.Keys
    requires Coupled(grid, before, s, t, st, ParentsOnly) && WallsAre(grid, walls)
    modifies grid
    ensures taken <==> neighbor !in st.g && neighbor !in walls
    ensures Coupled(grid, before, s, t, Discover(st, walls, current, neighbor), ParentsOnly) && WallsAre(grid, walls)
  {
    ghost var st' := Discover(st, walls, current, neighbor);
    CoupledAt(grid, before, s, t, st, ParentsOnly, neighbor);
    assert grid[neighbor.row, neighbor.col].kind == Wall <==> neighbor in walls by {
      assert neighbor == Pos(neighbor.row, neighbor.col);
    }
    taken := neighbor !in known && grid[neighbor.row, neighbor.col].kind != Wall;
    if taken {
      var c := grid[neighbor.row, neighbor.col];
      grid[neighbor.row, neighbor.col] :=
        if neighbor != t then c.(previous := Some(current), kind := Considering) else c.(previous := Some(current));
      assert grid[neighbor.row, neighbor.col] == Shown(before[neighbor], neighbor, s, t, st', ParentsOnly);
    }
    forall r, c | 0 <= r < grid.Length0 && 0 <= c < grid.Length1
      ensures Pos(r, c) in before && grid[r, c] == Shown(before[Pos(r, c)], Pos(r, c), s, t, st', ParentsOnly)
    {
      if Pos(r, c) != neighbor {
        ShownAfterDiscover(before[Pos(r, c)], Pos(r, c), s, t, st, walls, current, neighbor);
      }
    }
  }

  // ---------------------------------------------------------------------
  // Breadth-first search
  // ---------------------------------------------------------------------

  /** The queue of breadth-first search holds each frontier cell once, in
      order of score, and its scores differ by at most one. */
  ghost predicate Queued(queue: seq<Pos>, open: set<Pos>, g: map<Pos, int>) {
    && (forall x :: x in queue <==> x in open)
    && (forall x :: x in queue ==> x in g)
    && (forall i, j :: 0 <= i < j < |queue| ==> queue[i] != queue[j])
    && (forall i, j :: 0 <= i <= j < |queue| ==> g[queue[i]] <= g[queue[j]] <= g[queue[i]] + 1)
  }

  /** Every queued score is `k` or `k + 1`. */
  ghost predicate Within(queue: seq<Pos>, g: map<Pos, int>, k: int) {
    forall x :: x in queue ==> x in g && k <= g[x] <= k + 1
  }

  /** The head of the queue has the lowest score on the frontier, and the
      rest of the queue lies within one move of it. */
  lemma HeadIsLowest(queue: seq<Pos>, open: set<Pos>, g: map<Pos, int>)
    requires Queued(queue, open, g) && queue != []
    ensures forall y :: y in open ==> g[queue[0]] <= g[y]
    ensures Queued(queue[1..], open - {queue[0]}, g) && Within(queue[1..], g, g[queue[0]])
  {
    forall y | y in open ensures g[queue[0]] <= g[y] {
      var j :| 0 <= j < |queue| && queue[j] == y;
    }
    var rest := queue[1..];
    forall x | x in rest ensures x in g && g[queue[0]] <= g[x] <= g[queue[0]] + 1 {
      var j :| 0 <= j < |rest| && rest[j] == x;
      assert queue[j + 1] == x;
    }
    forall x ensures x in rest <==> x in open - {queue[0]} {
      if x in open - {queue[0]} {
        var j :| 0 <= j < |queue| && queue[j] == x;
        assert j != 0;
        assert rest[j - 1] == x;
      }
      if x in rest {
        var j :| 0 <= j < |rest| && rest[j] == x;
        assert queue[j + 1] == x;
      }
    }
  }

  /** Appending a newly discovered cell, scored one move further than the
      cell being expanded, keeps the queue in order. */
  lemma EnqueueKeepsOrder(queue: seq<Pos>, open: set<Pos>, g: map<Pos, int>, k: int, y: Pos)
    requires Queued(queue, open, g) && Within(queue, g, k) && y !in g
    ensures Queued(queue + [y], open + {y}, g[y := k + 1]) && Within(queue + [y], g[y := k + 1], k)
  {
    var q := queue + [y];
    var g' := g[y := k + 1];
    assert forall x :: x in queue ==> x != y && g'[x] == g[x];
    forall i, j | 0 <= i <= j < |q| ensures g'[q[i]] <= g'[q[j]] <= g'[q[i]] + 1 {
      if j < |queue| {
        assert q[i] == queue[i] && q[j] == queue[j];
      } else if i < |queue| {
        assert q[i] in queue;
      }
    }
    forall i, j | 0 <= i < j < |q| ensures q[i] != q[j] {
      if j < |queue| {
        assert q[i] == queue[i] && q[j] == queue[j];
      } else {
        assert q[i] in queue;
      }
    }
  }

  /** The queue and the visited set after one neighbour `y` of `cur` is
      discovered: a taken neighbour is appended and marked visited. */
  lemma QueueAfterDiscover(queue: seq<Pos>, visited: set<Pos>, st: SearchState, walls: set<Pos>, cur: Pos, y: Pos)
    requires Queued(queue, st.open, st.g) && cur in st.g && Within(queue, st.g, st.g[cur]) && visited == st.g.Keys
    requires cur in st.closed && st.closed !! st.open
    ensures var st' := Discover(st, walls, cur, y);
            var taken := y !in st.g && y !in walls;
            && st'.closed == st.closed && cur in st'.g && st'.g[cur] == st.g[cur]
            && Queued(if taken then queue + [y] else queue, st'.open, st'.g)
            && Within(if taken then queue + [y] else queue, st'.g, st.g[cur])
            && (if taken then visited + {y} else visited) == st'.g.Keys
            && (y in st.open ==> st.g[y] <= st.g[cur] + 1)
  {
    if y !in st.g && y !in walls {
      EnqueueKeepsOrder(queue, st.open, st.g, st.g[cur], y);
    }
  }

  /** Discovering the `i`-th neighbour of the cell being expanded settles
      it, for both searches that use the discovery rule: the breadth-first
      search passes the frontier bound that keeps it optimal (`strong`),
      the greedy search does not. */
  lemma SettleNext(n: int, walls: set<Pos>, s: Pos, st: SearchState, strong: bool, cur: Pos, neighbors: seq<Pos>, i: int)
    requires 0 <= i < |neighbors| && InBounds(n, neighbors[i]) && Adjacent(cur, neighbors[i])
    requires Expanding(n, walls, s, st, strong, cur, neighbors[..i])
    requires strong && neighbors[i] in st.open ==> st.g[neighbors[i]] <= st.g[cur] + 1
    ensures Tracked(n, st) && cur in st.closed && s in st.g
    ensures Expanding(n, walls, s, Discover(st, walls, cur, neighbors[i]), strong, cur, neighbors[..i + 1])
  {
    TreeIsTracked(n, walls, s, st);
    DiscoverSettles(n, walls, s, st, strong, cur, neighbors[..i], neighbors[i]);
    assert neighbors[..i + 1] == neighbors[..i] + [neighbors[i]];
  }

  /** Expanding the head of the queue: it is closed and painted, then every
      neighbour not yet visited and not a WALL is discovered and queued. */
  method BreadthExpand(grid: array2<Cell>, current: Pos, neighbors: seq<Pos>, queue: seq<Pos>, visited: set<Pos>,
                       s: Pos, t: Pos, ghost before: map<Pos, Cell>, ghost walls: set<Pos>, ghost st: SearchState)
    returns (queue': seq<Pos>, visited': set<Pos>, ghost st': SearchState)
    requires IsSquare(grid)
    requires Frontier(grid.Length0, walls, s, st, true) && current in st.open
    requires forall q :: WalkFrom(grid.Length0, walls, q, s, current) ==> |q| - 1 >= st.g[current]
    requires forall y :: y in neighbors <==> InBounds(grid.Length0, y) && Adjacent(current, y)
    requires Queued(queue, st.open - {current}, st.g) && Within(queue, st.g, st.g[current]) && visited == st.g.Keys
    requires Coupled(grid, before, s, t, st, ParentsOnly) && WallsAre(grid, walls)
    modifies grid
    ensures Frontier(grid.Length0, walls, s, st', true) && st'.closed == st.closed + {current}
    ensures Queued(queue', st'.open, st'.g) && visited' == st'.g.Keys
    ensures Coupled(grid, before, s, t, st', ParentsOnly) && WallsAre(grid, walls)
  {
    TreeIsTracked(grid.Length0, walls, s, st);
    CloseStartsExpanding(grid.Length0, walls, s, st, true, current);
    CloseCell(grid, current, s, t, ParentsOnly, before, walls, st);
    queue', visited', st' := BreadthScan(grid, current, neighbors, queue, visited, s, t, before, walls, Close(st, current));
  }

  /** The neighbour loop of the breadth-first search: every neighbour is
      discovered in order, and the taken ones are queued. */
  method BreadthScan(grid: array2<Cell>, current: Pos, neighbors: seq<Pos>, queue: seq<Pos>, visited: set<Pos>,
                     s: Pos, t: Pos, ghost before: map<Pos, Cell>, ghost walls: set<Pos>, ghost st: SearchState)
    returns (queue': seq<Pos>, visited': set<Pos>, ghost st': SearchState)
    requires IsSquare(grid)
    requires Expanding(grid.Length0, walls, s, st, true, current, [])
    requires forall y :: y in neighbors <==> InBounds(grid.Length0, y) && Adjacent(current, y)
    requires Queued(queue, st.open, st.g) && Within(queue, st.g, st.g[current]) && visited == st.g.Keys
    requires Coupled(grid, before, s, t, st, ParentsOnly) && WallsAre(grid, walls)
    modifies grid
    ensures Frontier(grid.Length0, walls, s, st', true) && st'.closed == st.closed
    ensures Queued(queue', st'.open, st'.g) && visited' == st'.g.Keys
    ensures Coupled(grid, before, s, t, st', ParentsOnly) && WallsAre(grid, walls)
  {
    st' := st;
    queue', visited' := queue, visited;
    var i := 0;
    while i < |neighbors|
      invariant 0 <= i <= |neighbors|
      invariant Expanding(grid.Length0, walls, s, st', true, current, neighbors[..i])
      invariant st'.closed == st.closed && st'.g[current] == st.g[current]
      invariant Queued(queue', st'.open, st'.g) && Within(queue', st'.g, st.g[current]) && visited' == st'.g.Keys
      invariant Coupled(grid, before, s, t, st', ParentsOnly) && WallsAre(grid, walls)
    {
      assert neighbors[i] in neighbors;
      var neighbor := neighbors[i];
      QueueAfterDiscover(queue', visited', st', walls, current, neighbor);
      SettleNext(grid.Length0, walls, s, st', true, current, neighbors, i);
      var taken := DiscoverNeighbor(grid, current, neighbor, visited', s, t, before, walls, st');
      st' := Discover(st', walls, current, neighbor);
      if taken {
        queue', visited' := queue' + [neighbor], visited' + {neighbor};
      }
      i := i + 1;
    }
    assert neighbors[..i] == neighbors;
    FinishExpanding(grid.Length0, walls, s, st', true, current, neighbors);
  }

  /** Breadth-first search from the state where only the start is queued
      and visited, until the end is dequeued (`found`) or the queue runs
      dry. The end's parent chain is then a shortest walk; a dry queue means
      the end cannot be reached. */
  method BreadthFirstSearch(grid: array2<Cell>, s: Pos, t: Pos, dirs: seq<(int, int)>,
                            ghost before: map<Pos, Cell>, ghost walls: set<Pos>)
    returns (found: bool, ghost st: SearchState)
    requires IsSquare(grid) && InBounds(grid.Length0, s)
    requires forall d :: d in dirs <==> d in UnitMoves
    requires Coupled(grid, before, s, t, Initial(s), ParentsOnly) && WallsAre(grid, walls)
    modifies grid
    ensures TreeInv(grid.Length0, walls, s, st)
    ensures found <==> Reachable(grid.Length0, walls, s, t)
    ensures found ==> t in st.g && ShortestWalk(grid.Length0, walls, Chain(grid.Length0, walls, s, st.g, st.par, t), s, t)
    ensures Coupled(grid, before, s, t, st, ParentsOnly) && WallsAre(grid, walls) && ParentsShown(grid, st.g, st.par)
  {
    var n := grid.Length0;
    var queue := [s];
    var visited := {s};
    st := Initial(s);
    InitialFrontier(n, walls, s, true);
    while queue != []
      invariant Frontier(n, walls, s, st, true) && t !in st.closed
      invariant Queued(queue, st.open, st.g) && visited == st.g.Keys
      invariant Coupled(grid, before, s, t, st, ParentsOnly) && WallsAre(grid, walls)
      decreases AllPositions(n) - st.closed
    {
      TreeIsTracked(n, walls, s, st);
      HeadIsLowest(queue, st.open, st.g);
      var current := queue[0];
      queue := queue[1..];
      PollIsOptimal(n, walls, s, t, false, st, current);
      if current == t {
        ChainIsShortest(n, walls, s, t, st);
        CoupledParents(grid, before, s, t, st, ParentsOnly);
        return true, st;
      }
      InAllPositions(n, current);
      var neighbors := NeighborList(n, current, dirs);
      queue, visited, st := BreadthExpand(grid, current, neighbors, queue, visited, s, t, before, walls, st);
    }
    ExhaustedMeansUnreachable(n, walls, s, t, st, true);
    TreeIsTracked(n, walls, s, st);
    CoupledParents(grid, before, s, t, st, ParentsOnly);
    found := false;
  }

  // ---------------------------------------------------------------------
  // Greedy best-first search
  // ---------------------------------------------------------------------

  /** `entered` lists the cells in the order they entered the frontier:
      each discovered cell once. */
  ghost predicate Logged(entered: seq<Pos>, g: map<Pos, int>) {
    && (forall x :: x in entered <==> x in g)
    && (forall i, j :: 0 <= i < j < |entered| ==> entered[i] != entered[j])
  }

  /** Polling the greedy queue: a frontier cell nearest to the end (ties
      broken arbitrarily). */
  method PollNearest(openSet: set<Pos>, t: Pos) returns (current: Pos)
    requires openSet != {}
    ensures current in openSet && forall y :: y in openSet ==> Manhattan(current, t) <= Manhattan(y, t)
  {
    ghost var key := map p | p in openSet :: Manhattan(p, t) as int;
    ghost var m := MinExists(openSet, key);
    current :| current in openSet && forall y :: y in openSet ==> Manhattan(current, t) <= Manhattan(y, t);
  }

  /** Discovering `y` logs it when it is taken and changes nothing
      otherwise. */
  lemma DiscoverLogged(entered: seq<Pos>, st: SearchState, walls: set<Pos>, cur: Pos, y: Pos)
    requires cur in st.g && Logged(entered, st.g)
    ensures var st' := Discover(st, walls, cur, y);
            if y !in st.g && y !in walls
            then Logged(entered + [y], st'.g) && st'.open == st.open + {y} && y in st'.g
            else st' == st
  {
    if y !in st.g && y !in walls {
      var e := entered + [y];
      assert forall k :: 0 <= k < |entered| ==> e[k] == entered[k];
    }
  }

  /** Expanding the polled cell in the greedy search: it is closed and
      painted, then its neighbours are discovered. */
  method GreedyExpand(grid: array2<Cell>, current: Pos, neighbors: seq<Pos>, openSet: set<Pos>, closedSet: set<Pos>,
                      s: Pos, t: Pos, ghost before: map<Pos, Cell>, ghost walls: set<Pos>, ghost st: SearchState,
                      ghost entered: seq<Pos>)
    returns (openSet': set<Pos>, closedSet': set<Pos>, hit: bool, ghost st': SearchState, ghost entered': seq<Pos>)
    requires IsSquare(grid)
    requires Frontier(grid.Length0, walls, s, st, false) && current in st.open
    requires forall y :: y in neighbors <==> InBounds(grid.Length0, y) && Adjacent(current, y)
    requires openSet == st.open && closedSet == st.closed && Logged(entered, st.g)
    requires Coupled(grid, before, s, t, st, ParentsOnly) && WallsAre(grid, walls)
    modifies grid
    ensures TreeInv(grid.Length0, walls, s, st') && closedSet' == st'.closed && closedSet' == closedSet + {current}
    ensures hit ==> t in st'.g
    ensures !hit ==> Frontier(grid.Length0, walls, s, st', false) && openSet' == st'.open
    ensures Logged(entered', st'.g)
    ensures Coupled(grid, before, s, t, st', ParentsOnly) && WallsAre(grid, walls)
  {
    TreeIsTracked(grid.Length0, walls, s, st);
    CloseStartsExpanding(grid.Length0, walls, s, st, false, current);
    CloseCell(grid, current, s, t, ParentsOnly, before, walls, st);
    closedSet' := closedSet + {current};
    openSet', hit, st', entered' := GreedyScan(grid, current, neighbors, openSet - {current}, closedSet', s, t, before, walls, Close(st, current), entered);
  }

  /** The neighbour loop of the greedy search: the neighbours are
      discovered in order until the end is discovered (`hit`). */
  method GreedyScan(grid: array2<Cell>, current: Pos, neighbors: seq<Pos>, openSet: set<Pos>, closedSet: set<Pos>,
                    s: Pos, t: Pos, ghost before: map<Pos, Cell>, ghost walls: set<Pos>, ghost st: SearchState,
                    ghost entered: seq<Pos>)
    returns (openSet': set<Pos>, hit: bool, ghost st': SearchState, ghost entered': seq<Pos>)
    requires IsSquare(grid)
    requires Expanding(grid.Length0, walls, s, st, false, current, [])
    requires forall y :: y in neighbors <==> InBounds(grid.Length0, y) && Adjacent(current, y)
    requires openSet == st.open && closedSet == st.closed && Logged(entered, st.g)
    requires Coupled(grid, before, s, t, st, ParentsOnly) && WallsAre(grid, walls)
    modifies grid
    ensures TreeInv(grid.Length0, walls, s, st') && closedSet == st'.closed
    ensures hit ==> t in st'.g
    ensures !hit ==> Frontier(grid.Length0, walls, s, st', false) && openSet' == st'.open
    ensures Logged(entered', st'.g)
    ensures Coupled(grid, before, s, t, st', ParentsOnly) && WallsAre(grid, walls)
  {
    openSet', st', entered' := openSet, st, entered;
    hit := false;
    var i := 0;
    while i < |neighbors|
      invariant 0 <= i <= |neighbors|
      invariant Expanding(grid.Length0, walls, s, st', false, current, neighbors[..i])
      invariant openSet' == st'.open && closedSet == st'.closed
      invariant Logged(entered', st'.g)
      invariant Coupled(grid, before, s, t, st', ParentsOnly) && WallsAre(grid, walls)
    {
      assert neighbors[i] in neighbors;
      var neighbor := neighbors[i];
      DiscoverLogged(entered', st', walls, current, neighbor);
      SettleNext(grid.Length0, walls, s, st', false, current, neighbors, i);
      var taken := DiscoverNeighbor(grid, current, neighbor, closedSet + openSet', s, t, before, walls, st');
      st' := Discover(st', walls, current, neighbor);
      if taken {
        entered' := entered' + [neighbor];
        if neighbor == t {
          hit := true;
          return;
        }
        openSet' := openSet' + {neighbor};
      }
      i := i + 1;
    }
    assert neighbors[..i] == neighbors;
    FinishExpanding(grid.Length0, walls, s, st', false, current, neighbors);
  }

  /** Greedy best-first search from the state where only the start is on
      the frontier, until the end is polled or discovered (`found`) or the
      frontier runs dry. Found means the end is reachable along the end's
      parent chain, with no promise of a shortest one; a dry frontier means
      it cannot be reached. `entered` lists the cells in the order they
      entered the frontier, each once. */
  method GreedySearch(grid: array2<Cell>, s: Pos, t: Pos, dirs: seq<(int, int)>,
                      ghost before: map<Pos, Cell>, ghost walls: set<Pos>)
    returns (found: bool, ghost st: SearchState, ghost entered: seq<Pos>)
    requires IsSquare(grid) && InBounds(grid.Length0, s)
    requires forall d :: d in dirs <==> d in UnitMoves
    requires Coupled(grid, before, s, t, Initial(s), ParentsOnly) && WallsAre(grid, walls)
    modifies grid
    ensures TreeInv(grid.Length0, walls, s, st)
    ensures found <==> Reachable(grid.Length0, walls, s, t)
    ensures found ==> t in st.g && WalkFrom(grid.Length0, walls, Chain(grid.Length0, walls, s, st.g, st.par, t), s, t)
    ensures Logged(entered, st.g)
    ensures Coupled(grid, before, s, t, st, ParentsOnly) && WallsAre(grid, walls) && ParentsShown(grid, st.g, st.par)
  {
    var n := grid.Length0;
    var openSet: set<Pos> := {s};
    var closedSet: set<Pos> := {};
    st := Initial(s);
    entered := [s];
    InitialFrontier(n, walls, s, false);
    while openSet != {}
      invariant Frontier(n, walls, s, st, false)
      invariant openSet == st.open && closedSet == st.closed && t !in closedSet
      invariant Logged(entered, st.g)
      invariant Coupled(grid, before, s, t, st, ParentsOnly) && WallsAre(grid, walls)
      decreases AllPositions(n) - closedSet
    {
      TreeIsTracked(n, walls, s, st);
      var current := PollNearest(openSet, t);
      if current == t {
        ChainIsWalk(n, walls, s, st.g, st.par, t);
        CoupledParents(grid, before, s, t, st, ParentsOnly);
        return true, st, entered;
      }
      InAllPositions(n, current);
      var neighbors := NeighborList(n, current, dirs);
      var hit;
      openSet, closedSet, hit, st, entered := GreedyExpand(grid, current, neighbors, openSet, closedSet, s, t, before, walls, st, entered);
      if hit {
        ChainIsWalk(n, walls, s, st.g, st.par, t);
        TreeIsTracked(n, walls, s, st);
        CoupledParents(grid, before, s, t, st, ParentsOnly);
        return true, st, entered;
      }
    }
    ExhaustedMeansUnreachable(n, walls, s, t, st, false);
    TreeIsTracked(n, walls, s, st);
    CoupledParents(grid, before, s, t, st, ParentsOnly);
    found := false;
  }
}
