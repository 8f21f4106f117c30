/** Walks through a grid: the reference notion of reachability and path
    length against which every search is proved. A walk may start on any cell
    (the searches never inspect the start cell's type) and every later cell
    must be in bounds, not a WALL and 4-adjacent to its predecessor. */
module GridWalks {
  import opened Cells

  ghost predicate IsWalk(n: int, walls: set<Pos>, q: seq<Pos>) {
    && |q| > 0
    && (forall i :: 0 <= i < |q| ==> InBounds(n, q[i]))
    && (forall i :: 0 < i < |q| ==> q[i] !in walls && Adjacent(q[i - 1], q[i]))
  }

  /** `q` is a walk from `s` to `t`; it has |q| - 1 moves. */
  ghost predicate WalkFrom(n: int, walls: set<Pos>, q: seq<Pos>, s: Pos, t: Pos) {
    IsWalk(n, walls, q) && q[0] == s && q[|q| - 1] == t
  }

  ghost predicate Reachable(n: int, walls: set<Pos>, s: Pos, t: Pos) {
    exists q :: WalkFrom(n, walls, q, s, t)
  }

  /** `q` is a walk from `s` to `t` that no other walk beats in length. */
  ghost predicate ShortestWalk(n: int, walls: set<Pos>, q: seq<Pos>, s: Pos, t: Pos) {
    WalkFrom(n, walls, q, s, t) &&
    forall q' :: WalkFrom(n, walls, q', s, t) ==> |q| <= |q'|
  }

  lemma TriangleInequality(a: Pos, b: Pos, c: Pos)
    ensures Manhattan(a, c) <= Manhattan(a, b) + Manhattan(b, c)
  {
  }

  /** Admissibility of the Manhattan heuristic: no walk from a to b has
      fewer moves than the Manhattan distance between them. */
  lemma {:induction false} WalkCoversManhattan(n: int, walls: set<Pos>, q: seq<Pos>)
    requires IsWalk(n, walls, q)
    ensures Manhattan(q[0], q[|q| - 1]) <= |q| - 1
  {
    if |q| > 1 {
      var q' := q[..|q| - 1];
      assert IsWalk(n, walls, q');
      WalkCoversManhattan(n, walls, q');
      TriangleInequality(q[0], q[|q| - 2], q[|q| - 1]);
    }
  }

  /** Any part of a walk is a walk. */
  lemma SliceIsWalk(n: int, walls: set<Pos>, q: seq<Pos>, i: int, j: int)
    requires IsWalk(n, walls, q) && 0 <= i < j <= |q|
    ensures IsWalk(n, walls, q[i..j])
  {
    var w := q[i..j];
    forall k | 0 < k < |w| ensures w[k] !in walls && Adjacent(w[k - 1], w[k]) {
      assert w[k] == q[i + k] && w[k - 1] == q[i + k - 1];
    }
  }

  /** A set that holds `s` and every passable neighbour of each member. */
  ghost predicate ClosedUnderMoves(n: int, walls: set<Pos>, region: set<Pos>) {
    forall z, y :: z in region && Adjacent(z, y) && InBounds(n, y) && y !in walls ==> y in region
  }

  /** Exhaustion argument shared by every search: a region closed under moves
      holds every cell a walk from one of its members can reach. */
  lemma {:induction false} WalksStayInRegion(n: int, walls: set<Pos>, region: set<Pos>, q: seq<Pos>)
    requires IsWalk(n, walls, q) && q[0] in region
    requires ClosedUnderMoves(n, walls, region)
    ensures q[|q| - 1] in region
  {
    if |q| > 1 {
      var q' := q[..|q| - 1];
      assert IsWalk(n, walls, q');
      WalksStayInRegion(n, walls, region, q');
      assert q[|q| - 2] in region;
    }
  }

  lemma UnreachableOutsideRegion(n: int, walls: set<Pos>, region: set<Pos>, s: Pos, t: Pos)
    requires s in region && t !in region
    requires ClosedUnderMoves(n, walls, region)
    ensures !Reachable(n, walls, s, t)
  {
    forall q | WalkFrom(n, walls, q, s, t) ensures false {
      WalksStayInRegion(n, walls, region, q);
    }
  }

  /** Extending a walk by one passable adjacent cell gives a walk. */
  lemma ExtendWalk(n: int, walls: set<Pos>, q: seq<Pos>, y: Pos)
    requires IsWalk(n, walls, q)
    requires InBounds(n, y) && y !in walls && Adjacent(q[|q| - 1], y)
    ensures IsWalk(n, walls, q + [y])
  {
    var w := q + [y];
    forall k | 0 < k < |w| ensures w[k] !in walls && Adjacent(w[k - 1], w[k]) {
      if k < |q| {
        assert w[k] == q[k] && w[k - 1] == q[k - 1];
      }
    }
  }
}
