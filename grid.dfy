/** The N×N obstacle grid that both searches run on, its 4-directional move
    model, and walks over it. */
module Grid {

  /** A cell coordinate (x, y); it is compared and hashed by value. */
  datatype Coord = Coord(x: int, y: int)

  /** Rows of cells: cell (x, y) is grid[y][x]; 0 is free, any other value is blocked. */
  type Grid = seq<seq<int>>

  /** Both files take the side length N from the number of rows and index
      grid[ny][nx] with nx < N, so every row has N cells. */
  predicate IsSquare(grid: Grid) {
    forall y :: 0 <= y < |grid| ==> |grid[y]| == |grid|
  }

  /** The neighbour test of the search loop: inside the N×N square and free.
      The `c.x < |grid[c.y]|` conjunct always holds on a square grid; it only
      keeps the predicate total. */
  predicate Passable(grid: Grid, c: Coord) {
    0 <= c.x < |grid| && 0 <= c.y < |grid| && c.x < |grid[c.y]| && grid[c.y][c.x] == 0
  }

  /** The four unit steps, in the order in which the loop tries them. */
  function Neighbours(c: Coord): (ns: seq<Coord>)
    ensures |ns| == 4
    ensures c !in ns
  {
    [Coord(c.x + 1, c.y), Coord(c.x - 1, c.y), Coord(c.x, c.y + 1), Coord(c.x, c.y - 1)]
  }

  /** The four unit steps are distinct: the loop never meets a neighbour twice. */
  lemma NeighboursDistinct(c: Coord, k: int)
    requires 0 <= k < 4
    ensures Neighbours(c)[k] !in Neighbours(c)[..k]
  {
  }

  function Last(w: seq<Coord>): Coord
    requires |w| > 0
  {
    w[|w| - 1]
  }

  /** A walk: consecutive coordinates one unit step apart, every coordinate
      after the first one passable. The first one is where the search starts,
      which the search never tests. */
  predicate IsWalk(grid: Grid, w: seq<Coord>) {
    |w| >= 1 &&
    forall i :: 1 <= i < |w| ==> w[i] in Neighbours(w[i - 1]) && Passable(grid, w[i])
  }

  predicate IsWalkFrom(grid: Grid, start: Coord, w: seq<Coord>) {
    IsWalk(grid, w) && w[0] == start
  }

  /** `c` can be reached from `start` with 4-directional steps over free cells. */
  ghost predicate Reachable(grid: Grid, start: Coord, c: Coord) {
    exists w :: IsWalkFrom(grid, start, w) && Last(w) == c
  }

  /** `n` is the number of steps of a shortest walk from `start` to `goal`. */
  ghost predicate IsShortest(grid: Grid, start: Coord, goal: Coord, n: int) {
    (exists w :: IsWalkFrom(grid, start, w) && Last(w) == goal && |w| == n + 1) &&
    (forall w :: IsWalkFrom(grid, start, w) && Last(w) == goal ==> n <= |w| - 1)
  }

  /** Every coordinate a search can ever touch, the cells of the square and the
      start, lies in one finite set: this bounds the number of expansions. */
  lemma FiniteDomain(grid: Grid, start: Coord) returns (d: set<Coord>)
    ensures start in d
    ensures forall c :: Passable(grid, c) ==> c in d
  {
    var n := |grid|;
    var cells := set x: int, y: int | 0 <= x < n && 0 <= y < n :: Coord(x, y);
    assert forall c :: Passable(grid, c) ==> c == Coord(c.x, c.y) && c in cells;
    d := cells + {start};
  }

  /** A walk extended by one passable unit step is a walk. */
  lemma WalkExtend(grid: Grid, w: seq<Coord>, c: Coord)
    requires IsWalk(grid, w)
    requires c in Neighbours(Last(w)) && Passable(grid, c)
    ensures IsWalk(grid, w + [c]) && Last(w + [c]) == c
  {
    var w' := w + [c];
    forall i | 1 <= i < |w'|
      ensures w'[i] in Neighbours(w'[i - 1]) && Passable(grid, w'[i])
    {
      if i < |w| {
        assert w'[i] == w[i] && w'[i - 1] == w[i - 1];
      }
    }
  }

  /** A non-empty prefix of a walk is a walk. */
  lemma WalkPrefix(grid: Grid, w: seq<Coord>, k: int)
    requires IsWalk(grid, w) && 1 <= k <= |w|
    ensures IsWalk(grid, w[..k]) && w[..k][0] == w[0] && Last(w[..k]) == w[k - 1]
  {
  }
}
