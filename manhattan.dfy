/** manhattan.py: `a_star(grid, start, goal)`, the same 4-directional search
    with the Manhattan distance built in as heuristic. It keeps no `came_from`
    links and reports the g of the goal's popped entry as the path length. */
module ManhattanSearch {
  import opened Grid
  import opened Frontier
  import opened Search

  function Abs(v: int): int {
    if v < 0 then -v else v
  }

  /** `manhattan(a, b)` (manhattan.py:26-27): |a.x - b.x| + |a.y - b.y|. */
  function Manhattan(a: Coord, b: Coord): int {
    Abs(a.x - b.x) + Abs(a.y - b.y)
  }

  /** The distance is a non-negative integer that is 0 exactly on equal coordinates. */
  lemma ManhattanMetric(a: Coord, b: Coord)
    ensures Manhattan(a, b) >= 0
    ensures Manhattan(a, b) == 0 <==> a == b
  {
  }

  /** The heap key of manhattan.py is the integer ng + manhattan(n, goal);
      integers embed exactly and in order in the reals, so the shared
      frontier sees it as this real-valued heuristic. */
  function ManhattanCost(a: Coord, b: Coord): real {
    Manhattan(a, b) as real
  }

  lemma ManhattanSymmetric(a: Coord, b: Coord)
    ensures Manhattan(a, b) == Manhattan(b, a)
  {
  }

  /** One unit step changes the distance to any fixed coordinate by exactly one. */
  lemma ManhattanStep(a: Coord, b: Coord, g: Coord)
    requires b in Neighbours(a)
    ensures Manhattan(a, g) == Manhattan(b, g) + 1 || Manhattan(b, g) == Manhattan(a, g) + 1
  {
  }

  /** The Manhattan distance never overestimates: every walk covers at least
      the distance between its ends. */
  lemma {:induction false} ManhattanWalkBound(grid: Grid, w: seq<Coord>)
    requires IsWalk(grid, w)
    ensures Manhattan(w[0], Last(w)) <= |w| - 1
    decreases |w|
  {
    if |w| > 1 {
      var k := |w| - 1;
      WalkPrefix(grid, w, k);
      ManhattanWalkBound(grid, w[..k]);
      ManhattanSymmetric(w[0], w[k - 1]);
      ManhattanSymmetric(w[0], w[k]);
      ManhattanStep(w[k - 1], w[k], w[0]);
    }
  }

  /** Neighbouring coordinates differ by one in distance to the goal, so the
      heuristic is consistent for every goal. */
  lemma ManhattanConsistent(goal: Coord)
    ensures Consistent(ManhattanCost, goal)
  {
    forall a, b | b in Neighbours(a)
      ensures ManhattanCost(a, goal) <= ManhattanCost(b, goal) + 1.0
    {
      ManhattanStep(a, b, goal);
    }
  }

  /** A shortest distance is at least the Manhattan distance. */
  lemma ShortestAtLeastManhattan(grid: Grid, start: Coord, goal: Coord, n: int)
    requires IsShortest(grid, start, goal, n)
    ensures Manhattan(start, goal) <= n
  {
    var w :| IsWalkFrom(grid, start, w) && Last(w) == goal && |w| == n + 1;
    ManhattanWalkBound(grid, w);
  }

  /** What the search proves for a consistent heuristic holds for the
      Manhattan one: the goal's g is the shortest distance. */
  lemma ManhattanShortest(grid: Grid, start: Coord, goal: Coord, g: int)
    requires Consistent(ManhattanCost, goal) ==> IsShortest(grid, start, goal, g)
    ensures IsShortest(grid, start, goal, g) && Manhattan(start, goal) <= g
  {
    ManhattanConsistent(goal);
    ShortestAtLeastManhattan(grid, start, goal, g);
  }

  /** One pass of the neighbour loop's body (manhattan.py:52-57): an in-bounds
      free `neighbor` that the step improves gets the score ng = g + 1 and one
      heap entry (ng + manhattan(neighbor, goal), ng, neighbor). */
  method Relax(grid: Grid, goal: Coord, g: int, neighbor: Coord, openSet: multiset<Entry>,
               gScore: map<Coord, int>)
    returns (openSet': multiset<Entry>, gScore': map<Coord, int>)
    requires IsSquare(grid)
    ensures var t := g + 1;
            var better := Passable(grid, neighbor) && (neighbor !in gScore || t < gScore[neighbor]);
            gScore' == (if better then gScore[neighbor := t] else gScore) &&
            openSet' == (if better then openSet + multiset{Push(goal, ManhattanCost, neighbor, t)} else openSet)
  {
    var size := |grid|;
    openSet', gScore' := openSet, gScore;
    if 0 <= neighbor.x < size && 0 <= neighbor.y < size && grid[neighbor.y][neighbor.x] == 0 {
      var ng := g + 1;
      if neighbor !in gScore || ng < gScore[neighbor] {
        gScore' := gScore[neighbor := ng];
        openSet' := openSet + multiset{Entry((ng + Manhattan(neighbor, goal)) as real, ng, neighbor)};
      }
    }
  }

  /** The neighbour loop (manhattan.py:50-57): every in-bounds free neighbour of
      `current` that the step improves gets the score g + 1 and one entry on the
      heap; nothing else changes. */
  method Expand(grid: Grid, goal: Coord, current: Coord, g: int, openSet: multiset<Entry>,
                gScore: map<Coord, int>)
    returns (openSet': multiset<Entry>, gScore': map<Coord, int>)
    requires IsSquare(grid)
    ensures var imp := Improved(grid, gScore, current, g + 1);
            gScore' == Lowered(gScore, imp, g + 1) &&
            openSet' == openSet + Pushes(goal, ManhattanCost, imp, g + 1)
  {
    var x, y := current.x, current.y;
    var neighbors := [Coord(x + 1, y), Coord(x - 1, y), Coord(x, y + 1), Coord(x, y - 1)];
    assert neighbors == Neighbours(current);
    ghost var t := g + 1;
    openSet', gScore' := openSet, gScore;
    for k := 0 to |neighbors|
      invariant gScore' == Lowered(gScore, ImprovedAmong(grid, gScore, Neighbours(current)[..k], t), t)
      invariant openSet' == openSet + Pushes(goal, ManhattanCost, ImprovedAmong(grid, gScore, Neighbours(current)[..k], t), t)
    {
      var neighbor := neighbors[k];
      ScoreStep(grid, goal, ManhattanCost, gScore, openSet, current, k, t, gScore', openSet');
      openSet', gScore' := Relax(grid, goal, g, neighbor, openSet', gScore');
    }
    assert Neighbours(current)[..|neighbors|] == Neighbours(current);
  }

  /** `a_star` (manhattan.py:30-59) without the clock: returns the number of
      closed coordinates and the g of the goal's entry, which is the length of
      a shortest walk, or 0 when the heap runs out. */
  method AStar(grid: Grid, start: Coord, goal: Coord) returns (nodes: nat, length: nat, ghost closed: set<Coord>)
    requires IsSquare(grid)
    ensures nodes == |closed|
    ensures forall c :: c in closed ==> Reachable(grid, start, c)
    ensures Reachable(grid, start, goal) ==>
              IsShortest(grid, start, goal, length) && Manhattan(start, goal) <= length
    ensures !Reachable(grid, start, goal) ==>
              length == 0 && forall c :: Reachable(grid, start, c) ==> c in closed
    ensures length == 0 <==> start == goal || !Reachable(grid, start, goal)
    ensures start == goal ==> nodes == 1 && length == 0
  {
    var openSet := multiset{Entry(Manhattan(start, goal) as real, 0, start)};
    var gScore := map[start := 0];
    var closedSet: set<Coord> := {};
    nodes := 0;
    ghost var G: map<Coord, int> := map[];
    ghost var walks := map[start := [start]];
    ghost var domain := FiniteDomain(grid, start);
    // The shared invariant speaks of the heuristic the heap keys are built with.
    ghost var h: Heuristic := ManhattanCost;
    LoopInvInit(grid, start, goal, h);

    while |openSet| > 0
      invariant LoopInv(grid, start, goal, h, openSet, gScore, closedSet, G, walks)
      invariant nodes == |closedSet|
      decreases |domain - closedSet|, |openSet|
    {
      var e, rest := PopMin(openSet);
      LoopStep(grid, start, goal, h, openSet, gScore, closedSet, G, walks, e, domain);
      openSet := rest;
      var g, curr := e.g, e.at;
      if curr in closedSet {
        continue;
      }

      closedSet := closedSet + {curr};
      nodes := nodes + 1;
      if curr == goal {
        ManhattanShortest(grid, start, goal, g);
        length, closed := g, closedSet;
        return;
      }

      ghost var imp := Improved(grid, gScore, curr, g + 1);
      openSet, gScore := Expand(grid, goal, curr, g, openSet, gScore);
      G := G[curr := g];
      walks := Extended(walks, imp, curr);
    }

    Exhausted(grid, start, goal, h, gScore, closedSet, G, walks);
    length, closed := 0, closedSet;
  }
}
