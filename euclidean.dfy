/** eukliud_4.py: `a_star(grid, start, goal, heuristic)`, an A* search with
    4-directional unit steps that takes its heuristic as a parameter, keeps
    `came_from` links and rebuilds the path when it closes the goal. The
    Euclidean heuristic it is run with is abstracted to an arbitrary function
    `h`; every result below holds for every `h`, except optimality, which holds
    for every consistent `h`. */
module EuclideanSearch {
  import opened Grid
  import opened Frontier
  import opened Search

  /** The record `a_star` returns (eukliud_4.py:68-73, 93-98) without its 'time' field. */
  datatype SearchResult = SearchResult(success: bool, nodesExpanded: nat, pathLength: nat)

  /** The `came_from` links: the start has none, every other scored coordinate
      has one, and each link goes one unit step back to a coordinate with a
      strictly smaller score. */
  ghost predicate LinksSound(grid: Grid, start: Coord, gScore: map<Coord, int>, cameFrom: map<Coord, Coord>) {
    start !in cameFrom &&
    cameFrom.Keys <= gScore.Keys &&
    (forall n :: n in gScore && n != start ==> n in cameFrom) &&
    forall n {:trigger cameFrom[n]} :: n in cameFrom ==>
      cameFrom[n] in gScore && gScore[cameFrom[n]] < gScore[n] &&
      n in Neighbours(cameFrom[n]) && Passable(grid, n)
  }

  /** The links kept alongside one iteration of the neighbour loop: when `n`
      is improved it is linked back to `c`, otherwise nothing changes. */
  lemma LinkStep(cameFrom: map<Coord, Coord>, imp: set<Coord>, next: set<Coord>, n: Coord, c: Coord, better: bool)
    requires next == imp + (if better then {n} else {})
    ensures Linked(cameFrom, next, c) == if better then Linked(cameFrom, imp, c)[n := c] else Linked(cameFrom, imp, c)
  {
    if better {
      LinkedAdd(cameFrom, imp, n, c);
    }
  }

  /** One iteration of the neighbour loop on all three structures: an improved
      `n` gets score `t`, a link back to `c` and one heap entry; any other `n`
      changes nothing. */
  lemma NeighbourStep(grid: Grid, goal: Coord, h: Heuristic, gScore: map<Coord, int>,
                      cameFrom: map<Coord, Coord>, openSet: multiset<Entry>, c: Coord, k: int, t: int,
                      gScore': map<Coord, int>, cameFrom': map<Coord, Coord>, openSet': multiset<Entry>)
    requires 0 <= k < 4
    requires gScore' == Lowered(gScore, ImprovedAmong(grid, gScore, Neighbours(c)[..k], t), t)
    requires cameFrom' == Linked(cameFrom, ImprovedAmong(grid, gScore, Neighbours(c)[..k], t), c)
    requires openSet' == openSet + Pushes(goal, h, ImprovedAmong(grid, gScore, Neighbours(c)[..k], t), t)
    ensures var n := Neighbours(c)[k];
            var next := ImprovedAmong(grid, gScore, Neighbours(c)[..k + 1], t);
            var better := Passable(grid, n) && (n !in gScore' || t < gScore'[n]);
            Lowered(gScore, next, t) == (if better then gScore'[n := t] else gScore') &&
            Linked(cameFrom, next, c) == (if better then cameFrom'[n := c] else cameFrom') &&
            openSet + Pushes(goal, h, next, t) ==
              (if better then openSet' + multiset{Push(goal, h, n, t)} else openSet')
  {
    var ns, n := Neighbours(c)[..k], Neighbours(c)[k];
    assert Neighbours(c)[..k + 1] == ns + [n];
    NeighboursDistinct(c, k);
    var imp := ImprovedAmong(grid, gScore, ns, t);
    var next := ImprovedAmong(grid, gScore, ns + [n], t);
    var better := Passable(grid, n) && (n !in gScore' || t < gScore'[n]);
    ScoreStep(grid, goal, h, gScore, openSet, c, k, t, gScore', openSet');
    RelaxStep(grid, gScore, ns, n, t, gScore');
    LinkStep(cameFrom, imp, next, n, c, better);
  }

  /** One pass of the neighbour loop's body (eukliud_4.py:78-90): an in-bounds
      free `neighbor` that the step from `current` improves gets the score
      g_score[current] + 1, a link back to `current` and one entry on the heap. */
  method Relax(grid: Grid, goal: Coord, h: Heuristic, current: Coord, neighbor: Coord,
               openSet: multiset<Entry>, gScore: map<Coord, int>, cameFrom: map<Coord, Coord>)
    returns (openSet': multiset<Entry>, gScore': map<Coord, int>, cameFrom': map<Coord, Coord>)
    requires IsSquare(grid) && current in gScore
    ensures var t := gScore[current] + 1;
            var better := Passable(grid, neighbor) && (neighbor !in gScore || t < gScore[neighbor]);
            gScore' == (if better then gScore[neighbor := t] else gScore) &&
            cameFrom' == (if better then cameFrom[neighbor := current] else cameFrom) &&
            openSet' == (if better then openSet + multiset{Push(goal, h, neighbor, t)} else openSet)
  {
    var size := |grid|;
    openSet', gScore', cameFrom' := openSet, gScore, cameFrom;
    if 0 <= neighbor.x < size && 0 <= neighbor.y < size && grid[neighbor.y][neighbor.x] == 0 {
      var tentativeG := gScore[current] + 1;
      if neighbor !in gScore || tentativeG < gScore[neighbor] {
        gScore' := gScore[neighbor := tentativeG];
        var fScore := tentativeG as real + h(neighbor, goal);
        openSet' := openSet + multiset{Entry(fScore, tentativeG, neighbor)};
        cameFrom' := cameFrom[neighbor := current];
      }
    }
  }

  /** The neighbour loop (eukliud_4.py:75-90): every in-bounds free neighbour
      that the step from `current` improves gets the score g_score[current] + 1,
      a link back to `current`, and one entry on the heap; nothing else changes. */
  method Expand(grid: Grid, goal: Coord, h: Heuristic, current: Coord, openSet: multiset<Entry>,
                gScore: map<Coord, int>, cameFrom: map<Coord, Coord>)
    returns (openSet': multiset<Entry>, gScore': map<Coord, int>, cameFrom': map<Coord, Coord>)
    requires IsSquare(grid) && current in gScore
    ensures var t := gScore[current] + 1;
            var imp := Improved(grid, gScore, current, t);
            gScore' == Lowered(gScore, imp, t) &&
            cameFrom' == Linked(cameFrom, imp, current) &&
            openSet' == openSet + Pushes(goal, h, imp, t)
  {
    var x, y := current.x, current.y;
    var neighbors := [Coord(x + 1, y), Coord(x - 1, y), Coord(x, y + 1), Coord(x, y - 1)];
    assert neighbors == Neighbours(current);
    ghost var t := gScore[current] + 1;
    openSet', gScore', cameFrom' := openSet, gScore, cameFrom;
    for k := 0 to |neighbors|
      invariant gScore' == Lowered(gScore, ImprovedAmong(grid, gScore, Neighbours(current)[..k], t), t)
      invariant cameFrom' == Linked(cameFrom, ImprovedAmong(grid, gScore, Neighbours(current)[..k], t), current)
      invariant openSet' == openSet + Pushes(goal, h, ImprovedAmong(grid, gScore, Neighbours(current)[..k], t), t)
      invariant current in gScore' && gScore'[current] == t - 1
    {
      var neighbor := neighbors[k];
      NeighbourStep(grid, goal, h, gScore, cameFrom, openSet, current, k, t, gScore', cameFrom', openSet');
      openSet', gScore', cameFrom' := Relax(grid, goal, h, current, neighbor, openSet', gScore', cameFrom');
    }
    assert Neighbours(current)[..|neighbors|] == Neighbours(current);
  }

  /** Relaxing the neighbours of `c` keeps the links sound. */
  lemma LinksAfterExpand(grid: Grid, start: Coord, gScore: map<Coord, int>, cameFrom: map<Coord, Coord>,
                         c: Coord, t: int)
    requires ScoresSound(grid, start, gScore) && LinksSound(grid, start, gScore, cameFrom)
    requires c in gScore && t == gScore[c] + 1
    ensures var imp := Improved(grid, gScore, c, t);
            LinksSound(grid, start, Lowered(gScore, imp, t), Linked(cameFrom, imp, c))
  {
    var imp := Improved(grid, gScore, c, t);
    var gScore' := Lowered(gScore, imp, t);
    var cameFrom' := Linked(cameFrom, imp, c);
    assert start !in imp && c !in imp;
    forall n | n in cameFrom'
      ensures cameFrom'[n] in gScore' && gScore'[cameFrom'[n]] < gScore'[n] &&
              n in Neighbours(cameFrom'[n]) && Passable(grid, n)
    {
      if n !in imp {
        var m := cameFrom[n];
        assert gScore'[m] <= gScore[m];
      }
    }
  }

  /** `w` follows the links: w[k + 1] == came_from[w[k]]. */
  ghost predicate LinkChain(cameFrom: map<Coord, Coord>, w: seq<Coord>) {
    |w| >= 1 &&
    forall k :: 0 <= k < |w| - 1 ==> w[k] in cameFrom && cameFrom[w[k]] == w[k + 1]
  }

  /** Following links lowers the score by at least one per link. */
  lemma {:induction false} ChainDescends(grid: Grid, start: Coord, gScore: map<Coord, int>,
                                         cameFrom: map<Coord, Coord>, w: seq<Coord>, a: int, b: int)
    requires LinksSound(grid, start, gScore, cameFrom) && LinkChain(cameFrom, w) && Last(w) in gScore
    requires 0 <= a <= b < |w|
    ensures w[a] in gScore && w[b] in gScore && gScore[w[a]] >= gScore[w[b]] + (b - a)
    decreases b - a
  {
    if a < b {
      ChainDescends(grid, start, gScore, cameFrom, w, a + 1, b);
    }
  }

  /** The element order of `s`, back to front (Python's `list.reverse`). */
  function Reversed<T>(s: seq<T>): (r: seq<T>)
    ensures |r| == |s|
    ensures forall i :: 0 <= i < |s| ==> r[i] == s[|s| - 1 - i]
  {
    if s == [] then [] else Reversed(s[1..]) + [s[0]]
  }

  /** Reversing keeps the elements pairwise distinct. */
  lemma ReversedDistinct<T>(s: seq<T>)
    requires forall i, j :: 0 <= i < j < |s| ==> s[i] != s[j]
    ensures var r := Reversed(s);
            forall i, j :: 0 <= i < j < |r| ==> r[i] != r[j]
  {
    var r := Reversed(s);
    forall i, j | 0 <= i < j < |r|
      ensures r[i] != r[j]
    {
      assert r[i] == s[|s| - 1 - i] && r[j] == s[|s| - 1 - j];
    }
  }

  /** Read back to front, a link chain is a walk: each link is one unit step
      onto a passable coordinate. */
  lemma ChainReversedIsWalk(grid: Grid, start: Coord, gScore: map<Coord, int>,
                            cameFrom: map<Coord, Coord>, w: seq<Coord>)
    requires LinksSound(grid, start, gScore, cameFrom) && LinkChain(cameFrom, w)
    ensures IsWalk(grid, Reversed(w))
  {
    var p := Reversed(w);
    var n := |w|;
    forall i | 1 <= i < n
      ensures p[i] in Neighbours(p[i - 1]) && Passable(grid, p[i])
    {
      var k := n - 1 - i;
      assert p[i] == w[k] && p[i - 1] == w[k + 1];
    }
  }

  /** A link chain that ends at a scored coordinate repeats no coordinate,
      since scores strictly fall along it. */
  lemma ChainDistinct(grid: Grid, start: Coord, gScore: map<Coord, int>,
                      cameFrom: map<Coord, Coord>, w: seq<Coord>)
    requires LinksSound(grid, start, gScore, cameFrom) && LinkChain(cameFrom, w) && Last(w) in gScore
    ensures forall i, j :: 0 <= i < j < |w| ==> w[i] != w[j]
  {
    forall i, j | 0 <= i < j < |w|
      ensures w[i] != w[j]
    {
      ChainDescends(grid, start, gScore, cameFrom, w, i, j);
    }
  }

  /** A link chain from the goal back to the start, reversed, is a walk from the
      start to the goal that repeats no coordinate and is no longer than the
      goal's score. */
  lemma ChainWalk(grid: Grid, start: Coord, goal: Coord, gScore: map<Coord, int>,
                  cameFrom: map<Coord, Coord>, w: seq<Coord>)
    requires ScoresSound(grid, start, gScore) && LinksSound(grid, start, gScore, cameFrom)
    requires LinkChain(cameFrom, w) && w[0] == goal && Last(w) == start
    ensures var p := Reversed(w);
            IsWalkFrom(grid, start, p) && Last(p) == goal && goal in gScore && |p| - 1 <= gScore[goal] &&
            forall i, j :: 0 <= i < j < |p| ==> p[i] != p[j]
  {
    ChainReversedIsWalk(grid, start, gScore, cameFrom, w);
    ChainDescends(grid, start, gScore, cameFrom, w, 0, |w| - 1);
    ChainDistinct(grid, start, gScore, cameFrom, w);
    ReversedDistinct(w);
  }

  /** Path reconstruction (eukliud_4.py:58-65): follow `came_from` back from the
      goal, append the start, reverse. */
  method RebuildPath(grid: Grid, start: Coord, goal: Coord, gScore: map<Coord, int>, cameFrom: map<Coord, Coord>)
    returns (path: seq<Coord>)
    requires ScoresSound(grid, start, gScore) && LinksSound(grid, start, gScore, cameFrom)
    requires goal in gScore
    ensures IsWalkFrom(grid, start, path) && Last(path) == goal
    ensures |path| - 1 <= gScore[goal]
    ensures forall i, j :: 0 <= i < j < |path| ==> path[i] != path[j]
    ensures start == goal ==> path == [start]
  {
    var current := goal;
    path := [];
    while current in cameFrom
      invariant current in gScore
      invariant LinkChain(cameFrom, path + [current]) && (path + [current])[0] == goal
      invariant start == goal ==> path == []
      decreases gScore[current]
    {
      path := path + [current];
      current := cameFrom[current];
    }
    path := path + [start];
    ChainWalk(grid, start, goal, gScore, cameFrom, path);
    path := Reversed(path);
  }

  /** The invariant of the search loop of this file: the shared one, and sound links. */
  ghost predicate SearchInv(grid: Grid, start: Coord, goal: Coord, h: Heuristic, openSet: multiset<Entry>,
                            gScore: map<Coord, int>, cameFrom: map<Coord, Coord>, closed: set<Coord>,
                            G: map<Coord, int>, walks: map<Coord, seq<Coord>>) {
    LoopInv(grid, start, goal, h, openSet, gScore, closed, G, walks) &&
    LinksSound(grid, start, gScore, cameFrom)
  }

  /** One pop of the search loop, in all three of its branches: a stale entry
      is dropped, the goal's entry ends the search with a state ready for the
      path rebuild, and any other entry closes its coordinate and relaxes its
      neighbours with cost g + 1. */
  lemma PopStep(grid: Grid, start: Coord, goal: Coord, h: Heuristic, openSet: multiset<Entry>,
                gScore: map<Coord, int>, cameFrom: map<Coord, Coord>, closed: set<Coord>,
                G: map<Coord, int>, walks: map<Coord, seq<Coord>>, e: Entry, domain: set<Coord>)
    requires SearchInv(grid, start, goal, h, openSet, gScore, cameFrom, closed, G, walks)
    requires IsMin(e, openSet)
    requires start in domain && forall c :: Passable(grid, c) ==> c in domain
    ensures e.at in closed ==>
              SearchInv(grid, start, goal, h, openSet - multiset{e}, gScore, cameFrom, closed, G, walks)
    ensures e.at !in closed ==>
              e.at in gScore && e.g == gScore[e.at] &&
              |domain - (closed + {e.at})| < |domain - closed| && |closed + {e.at}| == |closed| + 1
    ensures e.at !in closed && e.at == goal ==>
              ScoresSound(grid, start, gScore) && LinksSound(grid, start, gScore, cameFrom) &&
              (forall c :: c in closed + {goal} ==> Reachable(grid, start, c)) &&
              (start == goal ==> closed == {}) &&
              (Consistent(h, goal) ==> IsShortest(grid, start, goal, e.g))
    ensures e.at !in closed && e.at != goal ==>
              var c, t := e.at, e.g + 1;
              var imp := Improved(grid, gScore, c, t);
              SearchInv(grid, start, goal, h, (openSet - multiset{e}) + Pushes(goal, h, imp, t),
                        Lowered(gScore, imp, t), Linked(cameFrom, imp, c), closed + {c}, G[c := e.g],
                        Extended(walks, imp, c))
  {
    LoopStep(grid, start, goal, h, openSet, gScore, closed, G, walks, e, domain);
    if e.at !in closed && e.at != goal {
      LinksAfterExpand(grid, start, gScore, cameFrom, e.at, e.g + 1);
    }
  }

  /** The rebuilt path is a shortest walk when the goal's score is the shortest distance. */
  lemma PathShortest(grid: Grid, start: Coord, goal: Coord, g: int, p: seq<Coord>)
    requires IsShortest(grid, start, goal, g)
    requires IsWalkFrom(grid, start, p) && Last(p) == goal && |p| - 1 <= g
    ensures |p| - 1 == g && IsShortest(grid, start, goal, |p| - 1)
  {
  }

  /** `a_star` (eukliud_4.py:35-98) without the clock: closes coordinates in
      heap order, at most once each, and either rebuilds a path to the goal or
      runs out of entries. */
  method AStar(grid: Grid, start: Coord, goal: Coord, h: Heuristic)
    returns (r: SearchResult, ghost path: seq<Coord>, ghost closed: set<Coord>)
    requires IsSquare(grid)
    ensures r.nodesExpanded == |closed|
    ensures forall c :: c in closed ==> Reachable(grid, start, c)
    ensures r.success <==> Reachable(grid, start, goal)
    ensures r.success ==> IsWalkFrom(grid, start, path) && Last(path) == goal && r.pathLength == |path| - 1
    ensures r.success ==> forall i, j :: 0 <= i < j < |path| ==> path[i] != path[j]
    ensures r.success && Consistent(h, goal) ==> IsShortest(grid, start, goal, r.pathLength)
    ensures !r.success ==> r.pathLength == 0 && forall c :: Reachable(grid, start, c) ==> c in closed
    ensures start == goal ==> r == SearchResult(true, 1, 0)
  {
    var openSet := multiset{Entry(h(start, goal), 0, start)};
    var cameFrom: map<Coord, Coord> := map[];
    var gScore := map[start := 0];
    var closedSet: set<Coord> := {};
    var nodesExpanded := 0;
    ghost var G: map<Coord, int> := map[];
    ghost var walks := map[start := [start]];
    ghost var domain := FiniteDomain(grid, start);
    LoopInvInit(grid, start, goal, h);

    while |openSet| > 0
      invariant SearchInv(grid, start, goal, h, openSet, gScore, cameFrom, closedSet, G, walks)
      invariant nodesExpanded == |closedSet|
      decreases |domain - closedSet|, |openSet|
    {
      var e, rest := PopMin(openSet);
      PopStep(grid, start, goal, h, openSet, gScore, cameFrom, closedSet, G, walks, e, domain);
      openSet := rest;
      var current := e.at;
      if current in closedSet {
        continue;
      }

      closedSet := closedSet + {current};
      nodesExpanded := nodesExpanded + 1;
      if current == goal {
        var p := RebuildPath(grid, start, goal, gScore, cameFrom);
        if Consistent(h, goal) {
          PathShortest(grid, start, goal, e.g, p);
        }
        r, path, closed := SearchResult(true, nodesExpanded, |p| - 1), p, closedSet;
        return;
      }

      ghost var imp := Improved(grid, gScore, current, e.g + 1);
      openSet, gScore, cameFrom := Expand(grid, goal, h, current, openSet, gScore, cameFrom);
      G := G[current := e.g];
      walks := Extended(walks, imp, current);
    }

    Exhausted(grid, start, goal, h, gScore, closedSet, G, walks);
    r, path, closed := SearchResult(false, nodesExpanded, 0), [], closedSet;
  }
}
