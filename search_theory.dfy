/** The abstract state of the grid searches and the facts that make them
    correct. Every search in the system (the planner's A*, and the
    visualiser's Dijkstra, A*, greedy best-first and breadth-first searches)
    keeps a set of expanded ("closed") cells, a frontier ("open") of
    discovered cells, a score `g` per discovered cell (moves from the start
    along the parent chain) and a parent per discovered cell other than the
    start. The concrete searches keep this state in the grid's cell records
    and their own sets; here it is a value. */
module SearchTheory {
  import opened Cells
  import opened GridWalks

  datatype SearchState = SearchState(closed: set<Pos>, open: set<Pos>, g: map<Pos, int>, par: map<Pos, Pos>)

  /** The state every search starts from: only the start is discovered. */
  function Initial(s: Pos): SearchState {
    SearchState({}, {s}, map[s := 0], map[])
  }

  /** The heuristic the frontier adds to `g`: Manhattan distance to the end
      for A*, zero for Dijkstra and breadth-first search. */
  function H(useH: bool, p: Pos, t: Pos): nat {
    if useH then Manhattan(p, t) else 0
  }

  /** The parent pointers form a tree rooted at `s`: each parent is a
      discovered, adjacent cell whose score is one less. */
  ghost predicate Forest(n: int, walls: set<Pos>, s: Pos, g: map<Pos, int>, par: map<Pos, Pos>) {
    && s in g && g[s] == 0
    && par.Keys == g.Keys - {s}
    && (forall x :: x in g ==> InBounds(n, x) && (x != s ==> x !in walls) && g[x] >= 0)
    && (forall x :: x in par ==> par[x] in g && Adjacent(par[x], x) && g[x] == g[par[x]] + 1)
  }

  /** The cells met following parents from `x` back to `s`, in start-to-`x` order. */
  ghost function Chain(n: int, walls: set<Pos>, s: Pos, g: map<Pos, int>, par: map<Pos, Pos>, x: Pos): seq<Pos>
    requires Forest(n, walls, s, g, par) && x in g
    decreases g[x]
  {
    if x == s then [s] else Chain(n, walls, s, g, par, par[x]) + [x]
  }

  /** Following parents from any discovered cell reaches the start along a
      walk whose length is the cell's score, each cell at the index equal to
      its own score. */
  lemma {:induction false} ChainIsWalk(n: int, walls: set<Pos>, s: Pos, g: map<Pos, int>, par: map<Pos, Pos>, x: Pos)
    requires Forest(n, walls, s, g, par) && x in g
    ensures WalkFrom(n, walls, Chain(n, walls, s, g, par, x), s, x)
    ensures |Chain(n, walls, s, g, par, x)| == g[x] + 1
    ensures forall i :: 0 <= i < |Chain(n, walls, s, g, par, x)| ==>
              Chain(n, walls, s, g, par, x)[i] in g && g[Chain(n, walls, s, g, par, x)[i]] == i
    decreases g[x]
  {
    if x != s {
      var p := par[x];
      ChainIsWalk(n, walls, s, g, par, p);
      var c := Chain(n, walls, s, g, par, p);
      ExtendWalk(n, walls, c, x);
      assert Chain(n, walls, s, g, par, x) == c + [x];
    }
  }

  lemma ChainStep(n: int, walls: set<Pos>, s: Pos, g: map<Pos, int>, par: map<Pos, Pos>, x: Pos)
    requires Forest(n, walls, s, g, par) && x in g
    ensures x == s ==> Chain(n, walls, s, g, par, x) == [s]
    ensures x != s ==> par[x] in g && Chain(n, walls, s, g, par, x) == Chain(n, walls, s, g, par, par[x]) + [x]
  {
  }

  /** Shape of the search state that every search keeps. */
  ghost predicate TreeInv(n: int, walls: set<Pos>, s: Pos, st: SearchState) {
    && Forest(n, walls, s, st.g, st.par)
    && st.closed !! st.open
    && st.g.Keys == st.closed + st.open
    && (st.closed == {} ==> st.open == {s})
    && (st.closed != {} ==> s in st.closed)
    && (forall x :: x in st.par ==> st.par[x] in st.closed)
  }

  /** After `z` is expanded, its passable neighbour `y` is closed or on the
      frontier, and for the optimal searches no more than one move worse. */
  ghost predicate Settled(n: int, walls: set<Pos>, st: SearchState, z: Pos, y: Pos, strong: bool)
    requires z in st.g
  {
    InBounds(n, y) && y !in walls && Adjacent(z, y) ==>
      y in st.closed || (y in st.open && y in st.g && (strong ==> st.g[y] <= st.g[z] + 1))
  }

  ghost predicate Expanded(n: int, walls: set<Pos>, st: SearchState, z: Pos, strong: bool)
    requires z in st.g
  {
    forall y :: Settled(n, walls, st, z, y, strong)
  }

  /** Every closed cell's score is the length of a shortest walk to it. */
  ghost predicate OptInv(n: int, walls: set<Pos>, s: Pos, st: SearchState) {
    forall z, q :: z in st.closed && z in st.g && WalkFrom(n, walls, q, s, z) ==> |q| - 1 >= st.g[z]
  }

  /** The invariant at the head of a search loop. `strong` is true for the
      searches that promise shortest paths. */
  ghost predicate Frontier(n: int, walls: set<Pos>, s: Pos, st: SearchState, strong: bool) {
    && TreeInv(n, walls, s, st)
    && (forall z :: z in st.closed ==> Expanded(n, walls, st, z, strong))
    && (strong ==> OptInv(n, walls, s, st))
  }

  /** The invariant while the neighbours of `cur` are being processed:
      those in `done` are settled. */
  ghost predicate Expanding(n: int, walls: set<Pos>, s: Pos, st: SearchState, strong: bool, cur: Pos, done: seq<Pos>) {
    && TreeInv(n, walls, s, st)
    && cur in st.closed
    && (forall z :: z in st.closed && z != cur ==> Expanded(n, walls, st, z, strong))
    && (forall y :: y in done ==> Settled(n, walls, st, cur, y, strong))
    && (strong ==> OptInv(n, walls, s, st))
  }

  lemma InitialFrontier(n: int, walls: set<Pos>, s: Pos, strong: bool)
    requires InBounds(n, s)
    ensures Frontier(n, walls, s, Initial(s), strong)
  {
  }

  /** Moving a polled cell from the frontier to the closed set. */
  function Close(st: SearchState, u: Pos): SearchState {
    st.(closed := st.closed + {u}, open := st.open - {u})
  }

  /** Making `cur` the parent of `y`, one move further from the start than
      `cur`; `y` joins (or stays on) the frontier. */
  function Attach(st: SearchState, cur: Pos, y: Pos): SearchState
    requires cur in st.g
  {
    st.(open := st.open + {y}, g := st.g[y := st.g[cur] + 1], par := st.par[y := cur])
  }

  /** Relaxation by the Dijkstra / A* rule: discover an undiscovered
      neighbour, or lower a frontier neighbour's score when going through
      `cur` is shorter; closed and WALL neighbours are skipped. */
  function Relax(st: SearchState, walls: set<Pos>, cur: Pos, y: Pos): SearchState
    requires cur in st.g
  {
    if y in st.closed || y in walls then st
    else if y !in st.g || st.g[cur] + 1 < st.g[y] then Attach(st, cur, y)
    else st
  }

  /** Discovery by the breadth-first / greedy rule: only an undiscovered,
      non-WALL neighbour is taken, with `cur` as its parent. */
  function Discover(st: SearchState, walls: set<Pos>, cur: Pos, y: Pos): SearchState
    requires cur in st.g
  {
    if y in st.g || y in walls then st
    else Attach(st, cur, y)
  }

  /** Attaching a passable, unclosed neighbour of the cell being expanded,
      never raising its score, keeps the tree shape. */
  lemma AttachKeepsTree(n: int, walls: set<Pos>, s: Pos, st: SearchState, cur: Pos, y: Pos)
    requires TreeInv(n, walls, s, st)
    requires cur in st.closed
    requires InBounds(n, y) && Adjacent(cur, y) && y !in walls && y !in st.closed
    ensures TreeInv(n, walls, s, Attach(st, cur, y))
  {
    var st' := Attach(st, cur, y);
    assert y != s;
    forall x | x in st'.par ensures st'.par[x] in st'.g && Adjacent(st'.par[x], x) && st'.g[x] == st'.g[st'.par[x]] + 1 {
      if x != y {
        assert st.par[x] in st.closed;
      }
    }
  }

  /** Attaching an unclosed cell leaves every closed score alone. */
  lemma AttachKeepsOpt(n: int, walls: set<Pos>, s: Pos, st: SearchState, cur: Pos, y: Pos)
    requires OptInv(n, walls, s, st) && cur in st.g && y !in st.closed
    ensures OptInv(n, walls, s, Attach(st, cur, y))
  {
    var st' := Attach(st, cur, y);
    forall z, q | z in st'.closed && z in st'.g && WalkFrom(n, walls, q, s, z) ensures |q| - 1 >= st'.g[z] {
      assert z in st.g && st'.g[z] == st.g[z];
    }
  }

  /** A settled pair stays settled when `y` is attached with a score no
      larger than before. */
  lemma AttachKeepsSettled(n: int, walls: set<Pos>, st: SearchState, strong: bool, cur: Pos, y: Pos, z: Pos, y': Pos)
    requires cur in st.g && z in st.closed && y !in st.closed
    requires st.closed !! st.open && st.g.Keys == st.closed + st.open
    requires y in st.g ==> st.g[cur] + 1 <= st.g[y]
    requires Settled(n, walls, st, z, y', strong)
    ensures z in Attach(st, cur, y).g && Settled(n, walls, Attach(st, cur, y), z, y', strong)
  {
  }

  lemma RelaxSettles(n: int, walls: set<Pos>, s: Pos, st: SearchState, cur: Pos, done: seq<Pos>, y: Pos)
    requires Expanding(n, walls, s, st, true, cur, done)
    requires InBounds(n, y) && Adjacent(cur, y)
    ensures Expanding(n, walls, s, Relax(st, walls, cur, y), true, cur, done + [y])
  {
    if !(y in st.closed || y in walls) && (y !in st.g || st.g[cur] + 1 < st.g[y]) {
      AttachSettles(n, walls, s, st, true, cur, done, y);
    }
  }

  /** Discovering one neighbour of `cur` settles it and keeps the invariant;
      for the breadth-first search a frontier neighbour must already be at
      most one move worse than `cur`. */
  lemma DiscoverSettles(n: int, walls: set<Pos>, s: Pos, st: SearchState, strong: bool, cur: Pos, done: seq<Pos>, y: Pos)
    requires Expanding(n, walls, s, st, strong, cur, done)
    requires InBounds(n, y) && Adjacent(cur, y)
    requires strong && y in st.open ==> st.g[y] <= st.g[cur] + 1
    ensures Expanding(n, walls, s, Discover(st, walls, cur, y), strong, cur, done + [y])
  {
    if !(y in st.g || y in walls) {
      AttachSettles(n, walls, s, st, strong, cur, done, y);
    }
  }

  lemma AttachSettles(n: int, walls: set<Pos>, s: Pos, st: SearchState, strong: bool, cur: Pos, done: seq<Pos>, y: Pos)
    requires Expanding(n, walls, s, st, strong, cur, done)
    requires InBounds(n, y) && Adjacent(cur, y) && y !in walls && y !in st.closed
    requires y in st.g ==> st.g[cur] + 1 <= st.g[y]
    ensures Expanding(n, walls, s, Attach(st, cur, y), strong, cur, done + [y])
  {
    var st' := Attach(st, cur, y);
    AttachKeepsTree(n, walls, s, st, cur, y);
    if strong {
      AttachKeepsOpt(n, walls, s, st, cur, y);
    }
    forall z | z in st'.closed && z != cur ensures Expanded(n, walls, st', z, strong) {
      assert Expanded(n, walls, st, z, strong);
      forall y' ensures Settled(n, walls, st', z, y', strong) {
        assert Settled(n, walls, st, z, y', strong);
        AttachKeepsSettled(n, walls, st, strong, cur, y, z, y');
      }
    }
    forall y' | y' in done + [y] ensures Settled(n, walls, st', cur, y', strong) {
      if y' != y {
        assert Settled(n, walls, st, cur, y', strong);
        AttachKeepsSettled(n, walls, st, strong, cur, y, cur, y');
      }
    }
  }

  /** Walking any walk from the start, the first cell that is not closed is
      on the frontier, with a score no larger than its index on the walk. */
  lemma FirstOpenOnWalk(n: int, walls: set<Pos>, s: Pos, st: SearchState, q: seq<Pos>) returns (k: nat)
    requires Frontier(n, walls, s, st, true)
    requires IsWalk(n, walls, q) && q[0] == s && q[|q| - 1] !in st.closed
    ensures k < |q| && q[k] in st.open && st.g[q[k]] <= k
  {
    k := 0;
    while q[k] in st.closed
      invariant 0 <= k < |q|
      invariant q[k] in st.g && st.g[q[k]] <= k
      decreases |q| - k
    {
      assert Expanded(n, walls, st, q[k], true);
      assert Settled(n, walls, st, q[k], q[k + 1], true);
      k := k + 1;
      if q[k] in st.closed {
        SliceIsWalk(n, walls, q, 0, k + 1);
        assert WalkFrom(n, walls, q[..k + 1], s, q[k]);
      }
    }
  }

  /** The heart of Dijkstra's and A*'s correctness: a frontier cell of
      minimal score `g + h`, where `h` is zero or the Manhattan distance to
      the end (a consistent heuristic), already has the length of a shortest
      walk as its score. */
  lemma PollIsOptimal(n: int, walls: set<Pos>, s: Pos, t: Pos, useH: bool, st: SearchState, u: Pos)
    requires Frontier(n, walls, s, st, true)
    requires u in st.open
    requires forall y :: y in st.open ==> st.g[u] + H(useH, u, t) <= st.g[y] + H(useH, y, t)
    ensures forall q :: WalkFrom(n, walls, q, s, u) ==> |q| - 1 >= st.g[u]
  {
    forall q | WalkFrom(n, walls, q, s, u) ensures |q| - 1 >= st.g[u] {
      WalkBeatsPolled(n, walls, s, t, useH, st, u, q);
    }
  }

  lemma WalkBeatsPolled(n: int, walls: set<Pos>, s: Pos, t: Pos, useH: bool, st: SearchState, u: Pos, q: seq<Pos>)
    requires Frontier(n, walls, s, st, true)
    requires u in st.open
    requires forall y :: y in st.open ==> st.g[u] + H(useH, u, t) <= st.g[y] + H(useH, y, t)
    requires WalkFrom(n, walls, q, s, u)
    ensures |q| - 1 >= st.g[u]
  {
    var k := FirstOpenOnWalk(n, walls, s, st, q);
    var y := q[k];
    if useH {
      SliceIsWalk(n, walls, q, k, |q|);
      WalkCoversManhattan(n, walls, q[k..]);
      TriangleInequality(y, u, t);
    }
  }

  lemma CloseKeepsTree(n: int, walls: set<Pos>, s: Pos, st: SearchState, u: Pos)
    requires TreeInv(n, walls, s, st) && u in st.open
    ensures TreeInv(n, walls, s, Close(st, u))
  {
  }

  /** Closing a polled cell whose score is optimal starts its expansion. */
  lemma CloseStartsExpanding(n: int, walls: set<Pos>, s: Pos, st: SearchState, strong: bool, u: Pos)
    requires Frontier(n, walls, s, st, strong)
    requires u in st.open
    requires strong ==> forall q :: WalkFrom(n, walls, q, s, u) ==> |q| - 1 >= st.g[u]
    ensures Expanding(n, walls, s, Close(st, u), strong, u, [])
  {
    var st' := Close(st, u);
    CloseKeepsTree(n, walls, s, st, u);
    forall z | z in st'.closed && z != u ensures Expanded(n, walls, st', z, strong) {
      assert Expanded(n, walls, st, z, strong);
      forall y ensures Settled(n, walls, st', z, y, strong) {
        assert Settled(n, walls, st, z, y, strong);
      }
    }
  }

  /** Once every in-bounds neighbour of `cur` is settled, the loop invariant
      holds again. */
  lemma FinishExpanding(n: int, walls: set<Pos>, s: Pos, st: SearchState, strong: bool, cur: Pos, done: seq<Pos>)
    requires Expanding(n, walls, s, st, strong, cur, done)
    requires forall y :: InBounds(n, y) && Adjacent(cur, y) ==> y in done
    ensures Frontier(n, walls, s, st, strong)
  {
    assert Expanded(n, walls, st, cur, strong) by {
      forall y ensures Settled(n, walls, st, cur, y, strong) {
        if InBounds(n, y) && Adjacent(cur, y) {
          assert y in done;
        }
      }
    }
  }

  /** When the frontier runs dry without reaching `t`, `t` is unreachable. */
  lemma ExhaustedMeansUnreachable(n: int, walls: set<Pos>, s: Pos, t: Pos, st: SearchState, strong: bool)
    requires Frontier(n, walls, s, st, strong)
    requires st.open == {} && t !in st.closed
    ensures !Reachable(n, walls, s, t)
  {
    forall z, y | z in st.closed && Adjacent(z, y) && InBounds(n, y) && y !in walls
      ensures y in st.closed
    {
      assert Expanded(n, walls, st, z, strong);
      assert Settled(n, walls, st, z, y, strong);
    }
    UnreachableOutsideRegion(n, walls, st.closed, s, t);
  }

  /** When `t` is polled with an optimal score, the parent chain from `t`
      is a shortest walk. */
  lemma ChainIsShortest(n: int, walls: set<Pos>, s: Pos, t: Pos, st: SearchState)
    requires Forest(n, walls, s, st.g, st.par) && t in st.g
    requires forall q :: WalkFrom(n, walls, q, s, t) ==> |q| - 1 >= st.g[t]
    ensures ShortestWalk(n, walls, Chain(n, walls, s, st.g, st.par, t), s, t)
  {
    ChainIsWalk(n, walls, s, st.g, st.par, t);
  }

  /** A sequence of distinct members of `S` is no longer than `S` is large. */
  lemma {:induction false} DistinctWithin(q: seq<Pos>, S: set<Pos>)
    requires forall i :: 0 <= i < |q| ==> q[i] in S
    requires forall i, j :: 0 <= i < j < |q| ==> q[i] != q[j]
    ensures |q| <= |S|
  {
    if |q| > 0 {
      var x := q[|q| - 1];
      var q' := q[..|q| - 1];
      assert forall i :: 0 <= i < |q'| ==> q'[i] == q[i];
      DistinctWithin(q', S - {x});
    }
  }

  /** The bound that keeps every score below Java's Integer.MAX_VALUE: the
      parent chain of a cell visits distinct cells of the grid, so its score
      is less than the number of cells. */
  lemma ScoresBounded(n: nat, walls: set<Pos>, s: Pos, st: SearchState)
    requires Forest(n, walls, s, st.g, st.par)
    ensures forall x :: x in st.g ==> st.g[x] < n * n
  {
    forall x | x in st.g ensures st.g[x] < n * n {
      ChainIsWalk(n, walls, s, st.g, st.par, x);
      var q := Chain(n, walls, s, st.g, st.par, x);
      forall i | 0 <= i < |q| ensures q[i] in AllPositions(n) {
        InAllPositions(n, q[i]);
      }
      DistinctWithin(q, AllPositions(n));
      GridSize(n);
    }
  }
}
