# A* on a 4-connected obstacle grid

A model of the two A* searches of the repository:

- `eukliud_4.py` has `a_star(grid, start, goal, heuristic)`. It takes any heuristic, keeps `came_from` links and rebuilds the path when it closes the goal. It returns `success`, `nodes_expanded` and `path_length`.
- `manhattan.py` has `a_star(grid, start, goal)`. Its Manhattan heuristic is built in. It returns `(nodes, g, time)`, where `g` is the g of the goal's popped entry, or 0 when the heap runs out.

Both searches work the same way:

- They run on an N×N grid (`grid[y][x] == 0` is free) with unit steps right, left, down and up.
- They keep a binary heap of `(f, g, (x, y))` tuples, a `g_score` dictionary and a closed set.
- A popped entry whose coordinate is already closed is skipped.
- Any other popped entry closes its coordinate and counts one expansion. If that coordinate is the goal, the search ends. Otherwise each in-bounds free neighbour whose score improves gets `g_score[current] + 1` and a new heap entry.

The model has five modules:

- `Grid`: coordinates, the grid, passability, the four unit steps in the source's order, and walks.
- `Frontier`: heap entries, Python's tuple order on them, and `heappop` as the removal of the least entry of a multiset.
- `Search`: the neighbour relaxation and the loop invariant both searches keep. It also proves the facts about a popped entry that the results rest on:
  - its g is its current score;
  - with a consistent heuristic, that g is a shortest distance;
  - when the heap is empty, every reachable coordinate is closed.
- `EuclideanSearch`: `eukliud_4.py`'s `a_star` as an imperative loop, including the neighbour loop and the path rebuild.
- `ManhattanSearch`: `manhattan.py`'s `manhattan` and its `a_star`.

## What is proved

Both searches terminate: each closing step shrinks the finite set of coordinates not yet closed, and each skip shrinks the heap.

For every heuristic:

- the number of expansions equals the number of distinct closed coordinates;
- every closed coordinate is reachable;
- the Euclidean search succeeds exactly when the goal is reachable;
- its rebuilt path runs from `start` to `goal` by unit steps, every cell after `start` is free, it repeats no cell, and `path_length == len(path) - 1`;
- on failure, the closed set is every coordinate reachable from the start;
- `start == goal` gives one expansion and length 0.

For a consistent heuristic, the reported length is the shortest walk length (A* optimality). The Manhattan distance is consistent, so the Manhattan search always returns the shortest length. That length is also at least `manhattan(start, goal)`.

A reachable goal can still yield the Manhattan search's length 0, exactly when `start == goal`. `ManhattanSearch.AStar` states this as `length == 0 <==> start == goal || !Reachable(...)`. So a length of 0 does not by itself tell success from failure, and the driver at `manhattan.py:75` counts a `start == goal` run as failed. The driver is not part of this model.

## Model

| member | source | states |
|---|---|---|
| Grid.Passable | eukliud_4.py:82 | the neighbour test: inside the N×N square and `grid[ny][nx] == 0` |
| Grid.Neighbours | eukliud_4.py:75-79 | the four unit steps of `current`, none of them `current` itself |
| Grid.NeighboursDistinct | manhattan.py:50-51 | the four steps are pairwise distinct, so the neighbour loop meets no coordinate twice |
| Grid.FiniteDomain | eukliud_4.py:82 | every coordinate a search can score (in-bounds cells and the start) lies in one finite set, the bound behind termination |
| Frontier.KeyLe | eukliud_4.py:49 | Python's comparison of heap tuples: f first, then g, then x, then y |
| Frontier.KeyLeTotalOrder | eukliud_4.py:49 | Python's comparison of `(f, g, (x, y))` tuples is total, transitive and antisymmetric |
| Frontier.MinExists | eukliud_4.py:48-49 | every non-empty heap has a least entry |
| Frontier.MinUnique | manhattan.py:40 | the least entry is unique, so which entry `heappop` removes does not depend on the heap's layout |
| Frontier.PopMin | eukliud_4.py:49 | `heappop` returns an entry no other entry precedes and leaves exactly the other entries |
| Search.Push | eukliud_4.py:88-89 | the entry pushed for a neighbour scored t: `(t + h(n, goal), t, n)` |
| Search.ScoreStep | manhattan.py:51-57 | iteration k of the neighbour loop: an improved k-th neighbour gets score t and one pushed entry, otherwise scores and heap stay unchanged |
| Search.RelaxStep | eukliud_4.py:82-86 | a neighbour is improved exactly when it is in bounds, free, and unscored or scored above t |
| Search.PushesAdd | eukliud_4.py:88-89 | each improved neighbour adds exactly one entry `(t + h(n, goal), t, n)` |
| Search.LoopInvInit | manhattan.py:32-35 | the initial state (`{start: 0}`, the start's entry at g 0, nothing closed) satisfies the loop invariant, including the optimality part |
| Search.StalePop | eukliud_4.py:51-52 | the `continue` branch: popping an entry of a closed coordinate and skipping it keeps the loop invariant |
| Search.PoppedScore | eukliud_4.py:49-55 | the entry popped for an unclosed coordinate carries that coordinate's current score |
| Search.ExpandScores | eukliud_4.py:84-87 | relaxing keeps `start` at 0, admits only passable cells, and never raises a score |
| Search.LoweredNoHigher | eukliud_4.py:86-87 | a score is only replaced by a strictly smaller one, so no score rises and none is removed |
| Search.NeighboursRelaxed | manhattan.py:51-55 | after the neighbour loop of `curr`, every in-bounds free neighbour is scored at most g + 1 |
| Search.ExpandFrontier | eukliud_4.py:86-89 | after the pop and the pushes, every heap entry is `(g + h(n, goal), g, n)` with g at least n's score |
| Search.ExpandCovered | eukliud_4.py:86-89 | after expanding, every scored unclosed coordinate has its current entry on the heap |
| Search.ExpandRelaxed | eukliud_4.py:81-87 | after expanding c, every passable neighbour of a closed coordinate is scored at most its expansion score + 1 |
| Search.ExpandWalks | manhattan.py:53-55 | every new score is the length of a walk from the start: the walk to `curr` plus one step |
| Search.AfterExpandHeap | eukliud_4.py:84-89 | the score and heap parts of the invariant survive closing and relaxing one coordinate |
| Search.AfterExpand | eukliud_4.py:54-90 | closing a non-goal coordinate and relaxing its neighbours keeps the whole invariant |
| Search.CloseShrinks | eukliud_4.py:54 | closing an unclosed coordinate grows the closed set by one and shrinks the unclosed part of the domain |
| Search.HeuristicAlongWalk | eukliud_4.py:88 | a consistent heuristic drops by at most one per step along a walk |
| Search.PoppedBeatsWalk | eukliud_4.py:49 | with a consistent heuristic, the least unclosed entry's g is no longer than any walk to its coordinate |
| Search.PoppedOptimal | eukliud_4.py:48-55 | A* optimality: with a consistent heuristic, a coordinate is closed with its shortest distance |
| Search.OptimalAfterExpand | eukliud_4.py:54 | closing a coordinate at its shortest distance keeps every expansion optimal |
| Search.ClosedReachable | eukliud_4.py:54 | every closed coordinate is reachable from the start |
| Search.WalkClosed | eukliud_4.py:48 | once the heap is empty, every coordinate along a walk from the start is closed |
| Search.Exhausted | eukliud_4.py:92-98 | when the heap runs out, the closed set is exactly the reachable set and the goal is unreachable |
| Search.GoalPop | eukliud_4.py:57 | when the goal is popped, it and everything closed are reachable, the goal in exactly g steps, which are the fewest for a consistent heuristic; if start == goal nothing was closed before |
| Search.CloseStep | eukliud_4.py:54-90 | the non-goal branch keeps the invariant; with a consistent heuristic the coordinate is closed at its shortest distance |
| Search.LoopStep | manhattan.py:39-57 | one loop iteration in all three branches (skip, goal, expand): the invariant, the termination measure and the goal facts |
| EuclideanSearch.LinkStep | eukliud_4.py:90 | an improved neighbour is linked back to `current`, and no other link changes |
| EuclideanSearch.NeighbourStep | eukliud_4.py:81-90 | iteration k of the neighbour loop updates scores, links and heap together or leaves all three unchanged |
| EuclideanSearch.Relax | eukliud_4.py:82-90 | one neighbour: exactly when it is in bounds, free and improved, its score, link and heap entry are set |
| EuclideanSearch.Expand | eukliud_4.py:75-90 | the neighbour loop sets exactly the improved neighbours to `g_score[current] + 1`, links them to `current` and pushes one entry each |
| EuclideanSearch.LinksAfterExpand | eukliud_4.py:84-90 | the start never gets a link, every other scored cell has one, and each link is one step back to a strictly smaller score |
| EuclideanSearch.ChainDescends | eukliud_4.py:59-61 | following links lowers the score by at least one per link, so the rebuild loop ends |
| EuclideanSearch.Reversed | eukliud_4.py:63 | `path.reverse()`: same length, element i is element n-1-i of the input |
| EuclideanSearch.ReversedDistinct | eukliud_4.py:63 | reversing keeps the elements pairwise distinct |
| EuclideanSearch.ChainReversedIsWalk | eukliud_4.py:58-63 | a link chain read back to front is a walk of unit steps over free cells |
| EuclideanSearch.ChainDistinct | eukliud_4.py:58-61 | a link chain repeats no coordinate |
| EuclideanSearch.ChainWalk | eukliud_4.py:58-65 | the reversed chain from goal to start is a walk from start to goal, repeats no coordinate, and is no longer than the goal's score |
| EuclideanSearch.RebuildPath | eukliud_4.py:58-65 | the rebuilt path starts at `start`, ends at `goal`, steps by unit moves, repeats no cell, is `[start]` when start == goal, and has at most `g_score[goal]` steps |
| EuclideanSearch.PopStep | eukliud_4.py:48-90 | one loop iteration keeps the invariant together with sound links; the goal branch leaves a state ready for the rebuild |
| EuclideanSearch.PathShortest | eukliud_4.py:65 | a rebuilt path no longer than a shortest distance is a shortest path |
| EuclideanSearch.AStar | eukliud_4.py:35-98 | the returned `SearchResult` (the record of eukliud_4.py:68-73 and 93-98 without 'time'): `nodes_expanded` counts distinct closed cells, all reachable; `success` iff the goal is reachable; path length is the rebuilt path's steps, shortest for a consistent heuristic; failure closes every reachable cell with length 0; start == goal gives (true, 1, 0) |
| ManhattanSearch.Manhattan | manhattan.py:26-27 | `abs(a.x - b.x) + abs(a.y - b.y)`; its properties are the lemmas below |
| ManhattanSearch.ManhattanMetric | manhattan.py:26-27 | `manhattan(a, b)` is non-negative and 0 exactly when a == b |
| ManhattanSearch.ManhattanSymmetric | manhattan.py:26-27 | `manhattan(a, b) == manhattan(b, a)` |
| ManhattanSearch.ManhattanStep | manhattan.py:26-27 | between 4-neighbours the distance to any coordinate changes by exactly 1 |
| ManhattanSearch.ManhattanWalkBound | manhattan.py:26-27 | every walk is at least as long as the Manhattan distance between its ends |
| ManhattanSearch.ManhattanConsistent | manhattan.py:56-57 | the heuristic of the heap keys is consistent towards every goal |
| ManhattanSearch.ShortestAtLeastManhattan | manhattan.py:47-48 | a shortest distance is at least `manhattan(start, goal)` |
| ManhattanSearch.ManhattanShortest | manhattan.py:39-57 | the goal's popped g is the shortest distance and at least `manhattan(start, goal)` |
| ManhattanSearch.Relax | manhattan.py:52-57 | one neighbour: exactly when it is in bounds, free and improved, it gets `ng = g + 1` and the entry `(ng + manhattan(n, goal), ng, n)` |
| ManhattanSearch.Expand | manhattan.py:50-57 | the neighbour loop sets exactly the improved neighbours to g + 1 and pushes one entry each |
| ManhattanSearch.AStar | manhattan.py:30-59 | `nodes` counts distinct closed cells, all reachable; a reachable goal gives its shortest distance, at least `manhattan(start, goal)`; an unreachable goal gives 0 after closing every reachable cell; length is 0 iff start == goal or the goal is unreachable; start == goal gives (1, 0) |

## Left out

- The clock: `time.perf_counter()`, the `'time'` field and the third returned value are not modelled.
- `make_grid`, `get_free_position` and `get_free_pos`: these draw random numbers and may loop forever. The grid, start and goal are inputs instead.
- `main()` and the module-level driver of `manhattan.py`: their printing and float averages, and the division by `success` that fails when no run succeeds.
- `euclidean_heuristic` (`math.sqrt`, floating point): the Euclidean search is modelled for an arbitrary heuristic `h: (Coord, Coord) -> real`. Optimality is proved for every consistent `h`. Heap keys are exact reals, so float rounding of `f` is not modelled.
- The Manhattan search's integer heap keys are read as reals. Integers embed exactly and in order, so the modelled pop order is the same.
- `heapq` as a binary-heap array is not modelled: the heap is a multiset, and the pop takes its least entry in Python's tuple order.
- `EuclideanSearch.AStar` and `ManhattanSearch.AStar` require a square grid (every row has exactly N cells). The source also runs on other grids, and those runs are not modelled:
  - a row shorter than N can make it raise `IndexError`;
  - a row longer than N is read only in its first N columns.
- A blocked or out-of-bounds `start`: the source never tests the start cell, and neither does the model (a walk's first cell is unchecked). A search from a blocked start can succeed, and then the path's first cell is blocked. The proved walk properties cover every cell after the start only.
- `EuclideanSearch.Reversed`: `path.reverse()` reverses a list in place, but the model builds a new sequence. Nothing else holds the list, so no aliasing is lost.
