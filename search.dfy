/** What the two A* loops (eukliud_4.py `a_star` and manhattan.py `a_star`)
    have in common: the neighbour relaxation, the bookkeeping invariant they
    both keep between iterations, and the facts about a popped entry that the
    results rest on. The loops themselves are in EuclideanSearch and
    ManhattanSearch. */
module Search {
  import opened Grid
  import opened Frontier

  /** A heuristic: the estimated cost from the first coordinate to the second. */
  type Heuristic = (Coord, Coord) -> real

  /** The entry pushed when the score of `n` is set to `t`: (t + h(n, goal), t, n). */
  function Push(goal: Coord, h: Heuristic, n: Coord, t: int): Entry {
    Entry(t as real + h(n, goal), t, n)
  }

  /** The coordinates among `ns` that a step of cost `t` improves: in bounds,
      free, and either unscored or scored above `t`. */
  function ImprovedAmong(grid: Grid, gScore: map<Coord, int>, ns: seq<Coord>, t: int): set<Coord> {
    set n | n in ns && Passable(grid, n) && (n !in gScore || t < gScore[n])
  }

  /** The neighbours of `c` that a step of cost `t` improves. */
  function Improved(grid: Grid, gScore: map<Coord, int>, c: Coord, t: int): set<Coord> {
    ImprovedAmong(grid, gScore, Neighbours(c), t)
  }

  /** Looking at one more coordinate adds it exactly when it is improved. */
  lemma ImprovedAmongStep(grid: Grid, gScore: map<Coord, int>, ns: seq<Coord>, n: Coord, t: int)
    ensures ImprovedAmong(grid, gScore, ns + [n], t) ==
            ImprovedAmong(grid, gScore, ns, t) +
            (if Passable(grid, n) && (n !in gScore || t < gScore[n]) then {n} else {})
  {
  }

  /** g_score after the improved coordinates `ns` are set to `t`. */
  function Lowered(gScore: map<Coord, int>, ns: set<Coord>, t: int): map<Coord, int>
  {
    gScore + map n | n in ns :: t
  }

  /** came_from after the improved coordinates `ns` are linked to `c`. */
  function Linked(cameFrom: map<Coord, Coord>, ns: set<Coord>, c: Coord): map<Coord, Coord>
  {
    cameFrom + map n | n in ns :: c
  }

  /** Lowering one more coordinate is one map update. */
  lemma LoweredAdd(gScore: map<Coord, int>, ns: set<Coord>, n: Coord, t: int)
    ensures Lowered(gScore, ns + {n}, t) == Lowered(gScore, ns, t)[n := t]
  {
    var a, b := Lowered(gScore, ns + {n}, t), Lowered(gScore, ns, t)[n := t];
    assert a.Keys == b.Keys;
    forall m | m in a ensures a[m] == b[m] {
    }
  }

  /** Lowering leaves the score of a coordinate outside `ns` as it was. */
  lemma LoweredOutside(gScore: map<Coord, int>, ns: set<Coord>, n: Coord, t: int)
    requires n !in ns
    ensures n in Lowered(gScore, ns, t) <==> n in gScore
    ensures n in gScore ==> Lowered(gScore, ns, t)[n] == gScore[n]
  {
  }

  /** Linking one more coordinate is one map update. */
  lemma LinkedAdd(cameFrom: map<Coord, Coord>, ns: set<Coord>, n: Coord, c: Coord)
    ensures Linked(cameFrom, ns + {n}, c) == Linked(cameFrom, ns, c)[n := c]
  {
    var a, b := Linked(cameFrom, ns + {n}, c), Linked(cameFrom, ns, c)[n := c];
    assert a.Keys == b.Keys;
    forall m | m in a ensures a[m] == b[m] {
    }
  }

  /** One iteration of the neighbour loop: having relaxed the coordinates `ns`
      into `gScore'`, looking at `n` improves it exactly when it is passable and
      `gScore'` has no score for it or one above `t`. */
  lemma RelaxStep(grid: Grid, gScore: map<Coord, int>, ns: seq<Coord>, n: Coord, t: int,
                  gScore': map<Coord, int>)
    requires n !in ns
    requires gScore' == Lowered(gScore, ImprovedAmong(grid, gScore, ns, t), t)
    ensures var imp := ImprovedAmong(grid, gScore, ns, t);
            var better := Passable(grid, n) && (n !in gScore' || t < gScore'[n]);
            n !in imp &&
            ImprovedAmong(grid, gScore, ns + [n], t) == imp + (if better then {n} else {})
  {
    var imp := ImprovedAmong(grid, gScore, ns, t);
    ImprovedAmongStep(grid, gScore, ns, n, t);
    LoweredOutside(gScore, imp, n, t);
  }

  /** The scores kept alongside one iteration of the neighbour loop: an improved
      `n` gets `t`, otherwise nothing changes. */
  lemma LoweredStep(gScore: map<Coord, int>, imp: set<Coord>, next: set<Coord>, n: Coord, t: int, better: bool)
    requires next == imp + (if better then {n} else {})
    ensures Lowered(gScore, next, t) == if better then Lowered(gScore, imp, t)[n := t] else Lowered(gScore, imp, t)
  {
    if better {
      LoweredAdd(gScore, imp, n, t);
    }
  }

  /** The heap kept alongside one iteration of the neighbour loop: an improved
      `n` is pushed once, otherwise nothing is pushed. */
  lemma PushesStep(goal: Coord, h: Heuristic, imp: set<Coord>, next: set<Coord>, n: Coord, t: int, better: bool)
    requires n !in imp && next == imp + (if better then {n} else {})
    ensures Pushes(goal, h, next, t) ==
              if better then Pushes(goal, h, imp, t) + multiset{Push(goal, h, n, t)} else Pushes(goal, h, imp, t)
  {
    if better {
      PushesAdd(goal, h, imp, n, t);
    }
  }

  /** Iteration `k` of the neighbour loop of `c` on the scores and the heap:
      the k-th neighbour, when improved, gets score `t` and one heap entry;
      otherwise nothing changes. */
  lemma ScoreStep(grid: Grid, goal: Coord, h: Heuristic, gScore: map<Coord, int>, openSet: multiset<Entry>,
                  c: Coord, k: int, t: int, gScore': map<Coord, int>, openSet': multiset<Entry>)
    requires 0 <= k < 4
    requires gScore' == Lowered(gScore, ImprovedAmong(grid, gScore, Neighbours(c)[..k], t), t)
    requires openSet' == openSet + Pushes(goal, h, ImprovedAmong(grid, gScore, Neighbours(c)[..k], t), t)
    ensures var n := Neighbours(c)[k];
            var next := ImprovedAmong(grid, gScore, Neighbours(c)[..k + 1], t);
            var better := Passable(grid, n) && (n !in gScore' || t < gScore'[n]);
            Lowered(gScore, next, t) == (if better then gScore'[n := t] else gScore') &&
            openSet + Pushes(goal, h, next, t) ==
              (if better then openSet' + multiset{Push(goal, h, n, t)} else openSet')
  {
    var ns, n := Neighbours(c)[..k], Neighbours(c)[k];
    assert Neighbours(c)[..k + 1] == ns + [n];
    NeighboursDistinct(c, k);
    var imp := ImprovedAmong(grid, gScore, ns, t);
    var next := ImprovedAmong(grid, gScore, ns + [n], t);
    var better := Passable(grid, n) && (n !in gScore' || t < gScore'[n]);
    RelaxStep(grid, gScore, ns, n, t, gScore');
    LoweredStep(gScore, imp, next, n, t, better);
    PushesStep(goal, h, imp, next, n, t, better);
  }

  /** Walk witnesses after the improved coordinates `ns` are reached from `c`. */
  function Extended(walks: map<Coord, seq<Coord>>, ns: set<Coord>, c: Coord): map<Coord, seq<Coord>>
    requires c in walks
  {
    walks + map n | n in ns :: walks[c] + [n]
  }

  /** The entries pushed for the improved coordinates `ns`, each once. */
  function Pushes(goal: Coord, h: Heuristic, ns: set<Coord>, t: int): multiset<Entry> {
    multiset(set n | n in ns :: Push(goal, h, n, t))
  }

  /** Pushing one more coordinate adds exactly its entry. */
  lemma PushesAdd(goal: Coord, h: Heuristic, ns: set<Coord>, n: Coord, t: int)
    requires n !in ns
    ensures Pushes(goal, h, ns + {n}, t) == Pushes(goal, h, ns, t) + multiset{Push(goal, h, n, t)}
  {
    var a := set m | m in ns :: Push(goal, h, m, t);
    var b := set m | m in ns + {n} :: Push(goal, h, m, t);
    assert b == a + {Push(goal, h, n, t)};
    assert Push(goal, h, n, t) !in a;
  }

  /** A heuristic is consistent towards `goal` when one unit step lowers it by at most 1. */
  ghost predicate Consistent(h: Heuristic, goal: Coord) {
    forall a, b :: b in Neighbours(a) ==> h(a, goal) <= h(b, goal) + 1.0
  }

  // ---------------------------------------------------------------------
  // The loop invariant

  /** g_score starts as {start: 0} and only ever receives passable cells with
      non-negative scores. */
  ghost predicate ScoresSound(grid: Grid, start: Coord, gScore: map<Coord, int>) {
    start in gScore && gScore[start] == 0 &&
    forall n :: n in gScore ==> gScore[n] >= 0 && (n == start || Passable(grid, n))
  }

  /** Every heap entry is (g + h(n, goal), g, n) for a scored n whose score is
      at most g: entries whose g exceeds the score are the stale ones. */
  ghost predicate FrontierSound(goal: Coord, h: Heuristic, openSet: multiset<Entry>, gScore: map<Coord, int>) {
    forall e :: e in openSet ==> e.at in gScore && gScore[e.at] <= e.g && e == Push(goal, h, e.at, e.g)
  }

  /** Every scored coordinate that is not closed has its current entry in the heap. */
  ghost predicate OpenCovered(goal: Coord, h: Heuristic, openSet: multiset<Entry>,
                              gScore: map<Coord, int>, closed: set<Coord>) {
    forall n :: n in gScore && n !in closed ==> Push(goal, h, n, gScore[n]) in openSet
  }

  /** Every passable neighbour of a closed coordinate c is scored at most G[c] + 1,
      where G[c] is the score c had when it was expanded. */
  ghost predicate ClosedRelaxed(grid: Grid, gScore: map<Coord, int>, closed: set<Coord>, G: map<Coord, int>) {
    closed <= G.Keys &&
    forall c, n :: c in closed && n in Neighbours(c) && Passable(grid, n) ==>
      n in gScore && gScore[n] <= G[c] + 1
  }

  /** Every score is the length of an actual walk from the start. */
  ghost predicate WalksWitness(grid: Grid, start: Coord, gScore: map<Coord, int>, walks: map<Coord, seq<Coord>>) {
    forall n :: n in gScore ==>
      n in walks && IsWalkFrom(grid, start, walks[n]) && Last(walks[n]) == n && |walks[n]| == gScore[n] + 1
  }

  /** Every closed c was expanded with a score G[c] no walk from the start to c beats. */
  ghost predicate ExpansionsOptimal(grid: Grid, start: Coord, closed: set<Coord>, G: map<Coord, int>) {
    closed <= G.Keys &&
    forall w :: IsWalkFrom(grid, start, w) && Last(w) in closed ==> G[Last(w)] <= |w| - 1
  }

  /** The invariant both loops keep at the head of `while open_set`. */
  ghost predicate Inv(grid: Grid, start: Coord, goal: Coord, h: Heuristic, openSet: multiset<Entry>,
                      gScore: map<Coord, int>, closed: set<Coord>, G: map<Coord, int>,
                      walks: map<Coord, seq<Coord>>) {
    ScoresSound(grid, start, gScore) &&
    closed <= gScore.Keys &&
    goal !in closed &&
    FrontierSound(goal, h, openSet, gScore) &&
    OpenCovered(goal, h, openSet, gScore, closed) &&
    ClosedRelaxed(grid, gScore, closed, G) &&
    WalksWitness(grid, start, gScore, walks) &&
    (start !in closed ==> closed == {} && openSet == multiset{Push(goal, h, start, 0)})
  }

  /** Closing one more coordinate of a finite domain leaves fewer unclosed
      coordinates: the measure the search loop decreases. */
  lemma CloseShrinks(d: set<Coord>, closed: set<Coord>, c: Coord)
    requires c in d && c !in closed
    ensures |d - (closed + {c})| < |d - closed|
    ensures |closed + {c}| == |closed| + 1
  {
    assert d - (closed + {c}) == (d - closed) - {c};
  }

  /** Popping an entry of a closed coordinate (the `continue` branch) keeps the invariant. */
  lemma StalePop(grid: Grid, start: Coord, goal: Coord, h: Heuristic, openSet: multiset<Entry>,
                 gScore: map<Coord, int>, closed: set<Coord>, G: map<Coord, int>,
                 walks: map<Coord, seq<Coord>>, e: Entry)
    requires LoopInv(grid, start, goal, h, openSet, gScore, closed, G, walks)
    requires e in openSet && e.at in closed
    ensures LoopInv(grid, start, goal, h, openSet - multiset{e}, gScore, closed, G, walks)
  {
    var rest := openSet - multiset{e};
    forall n | n in gScore && n !in closed
      ensures Push(goal, h, n, gScore[n]) in rest
    {
      assert Push(goal, h, n, gScore[n]) != e;
    }
  }

  /** The entry popped for a coordinate that is not closed carries its current
      score: an entry with a larger g has a larger f than the current one. */
  lemma PoppedScore(goal: Coord, h: Heuristic, openSet: multiset<Entry>,
                    gScore: map<Coord, int>, closed: set<Coord>, e: Entry)
    requires FrontierSound(goal, h, openSet, gScore)
    requires OpenCovered(goal, h, openSet, gScore, closed)
    requires IsMin(e, openSet) && e.at !in closed
    ensures e.at in gScore && e.g == gScore[e.at]
  {
    var current := Push(goal, h, e.at, gScore[e.at]);
    assert current in openSet;
    assert KeyLe(e, current);
  }

  /** Relaxing the neighbours of c with cost t = g_score[c] + 1 keeps the scores sound. */
  lemma ExpandScores(grid: Grid, start: Coord, gScore: map<Coord, int>, c: Coord, t: int)
    requires ScoresSound(grid, start, gScore) && c in gScore && t == gScore[c] + 1
    ensures var gScore' := Lowered(gScore, Improved(grid, gScore, c, t), t);
            ScoresSound(grid, start, gScore') &&
            (forall n :: n in gScore ==> n in gScore' && gScore'[n] <= gScore[n]) &&
            gScore'[c] == gScore[c]
  {
    LoweredNoHigher(grid, gScore, c, t);
    assert start !in Improved(grid, gScore, c, t);
  }

  /** After the pop of e and the pushes, every heap entry is still sound. */
  lemma ExpandFrontier(goal: Coord, h: Heuristic, openSet: multiset<Entry>, gScore: map<Coord, int>,
                       e: Entry, c: Coord, t: int, grid: Grid)
    requires FrontierSound(goal, h, openSet, gScore)
    ensures var imp := Improved(grid, gScore, c, t);
            FrontierSound(goal, h, (openSet - multiset{e}) + Pushes(goal, h, imp, t),
                          Lowered(gScore, imp, t))
  {
    var imp := Improved(grid, gScore, c, t);
    var openSet' := (openSet - multiset{e}) + Pushes(goal, h, imp, t);
    var gScore' := Lowered(gScore, imp, t);
    forall d | d in openSet'
      ensures d.at in gScore' && gScore'[d.at] <= d.g && d == Push(goal, h, d.at, d.g)
    {
      if d !in openSet - multiset{e} {
        assert d in set n | n in imp :: Push(goal, h, n, t);
      }
    }
  }

  /** After closing c = e.at and pushing, every open coordinate still has its current entry. */
  lemma ExpandCovered(goal: Coord, h: Heuristic, openSet: multiset<Entry>, gScore: map<Coord, int>,
                      closed: set<Coord>, e: Entry, t: int, grid: Grid)
    requires OpenCovered(goal, h, openSet, gScore, closed)
    ensures var imp := Improved(grid, gScore, e.at, t);
            OpenCovered(goal, h, (openSet - multiset{e}) + Pushes(goal, h, imp, t),
                        Lowered(gScore, imp, t), closed + {e.at})
  {
    var imp := Improved(grid, gScore, e.at, t);
    var openSet' := (openSet - multiset{e}) + Pushes(goal, h, imp, t);
    var gScore' := Lowered(gScore, imp, t);
    forall n | n in gScore' && n !in closed + {e.at}
      ensures Push(goal, h, n, gScore'[n]) in openSet'
    {
      if n in imp {
        assert Push(goal, h, n, t) in set m | m in imp :: Push(goal, h, m, t);
      } else {
        assert Push(goal, h, n, gScore[n]) != e;
      }
    }
  }

  /** Relaxing never raises a score. */
  lemma LoweredNoHigher(grid: Grid, gScore: map<Coord, int>, c: Coord, t: int)
    ensures var gScore' := Lowered(gScore, Improved(grid, gScore, c, t), t);
            forall n :: n in gScore ==> n in gScore' && gScore'[n] <= gScore[n]
  {
  }

  /** After relaxing the neighbours of c with cost t, each passable one is scored at most t. */
  lemma NeighboursRelaxed(grid: Grid, gScore: map<Coord, int>, c: Coord, t: int)
    ensures var gScore' := Lowered(gScore, Improved(grid, gScore, c, t), t);
            forall n :: n in Neighbours(c) && Passable(grid, n) ==> n in gScore' && gScore'[n] <= t
  {
  }

  /** After expanding c, its passable neighbours are scored at most g_score[c] + 1. */
  lemma ExpandRelaxed(grid: Grid, gScore: map<Coord, int>, closed: set<Coord>, G: map<Coord, int>,
                      c: Coord, t: int)
    requires ClosedRelaxed(grid, gScore, closed, G) && c in gScore && t == gScore[c] + 1
    ensures var gScore' := Lowered(gScore, Improved(grid, gScore, c, t), t);
            ClosedRelaxed(grid, gScore', closed + {c}, G[c := gScore[c]])
  {
    var gScore' := Lowered(gScore, Improved(grid, gScore, c, t), t);
    var G' := G[c := gScore[c]];
    LoweredNoHigher(grid, gScore, c, t);
    NeighboursRelaxed(grid, gScore, c, t);
    forall c0, n | c0 in closed + {c} && n in Neighbours(c0) && Passable(grid, n)
      ensures n in gScore' && gScore'[n] <= G'[c0] + 1
    {
      if c0 != c {
        assert G'[c0] == G[c0];
        assert n in gScore && gScore[n] <= G[c0] + 1;
      }
    }
  }

  /** The walk to c, one step longer, witnesses every new score. */
  lemma ExpandWalks(grid: Grid, start: Coord, gScore: map<Coord, int>, walks: map<Coord, seq<Coord>>,
                    c: Coord, t: int)
    requires WalksWitness(grid, start, gScore, walks) && c in gScore && t == gScore[c] + 1
    ensures var imp := Improved(grid, gScore, c, t);
            WalksWitness(grid, start, Lowered(gScore, imp, t), Extended(walks, imp, c))
  {
    var imp := Improved(grid, gScore, c, t);
    var gScore' := Lowered(gScore, imp, t);
    var walks' := Extended(walks, imp, c);
    forall n | n in gScore'
      ensures n in walks' && IsWalkFrom(grid, start, walks'[n]) && Last(walks'[n]) == n &&
              |walks'[n]| == gScore'[n] + 1
    {
      if n in imp {
        WalkExtend(grid, walks[c], n);
      }
    }
  }

  /** The heap half of AfterExpand: scores, heap entries and open coordinates. */
  lemma AfterExpandHeap(grid: Grid, start: Coord, goal: Coord, h: Heuristic, openSet: multiset<Entry>,
                        gScore: map<Coord, int>, closed: set<Coord>, e: Entry, t: int)
    requires ScoresSound(grid, start, gScore) && closed <= gScore.Keys
    requires FrontierSound(goal, h, openSet, gScore) && OpenCovered(goal, h, openSet, gScore, closed)
    requires e in openSet && e.at in gScore && t == gScore[e.at] + 1
    ensures var imp := Improved(grid, gScore, e.at, t);
            var openSet' := (openSet - multiset{e}) + Pushes(goal, h, imp, t);
            var gScore' := Lowered(gScore, imp, t);
            ScoresSound(grid, start, gScore') && closed + {e.at} <= gScore'.Keys &&
            FrontierSound(goal, h, openSet', gScore') && OpenCovered(goal, h, openSet', gScore', closed + {e.at})
  {
    ExpandScores(grid, start, gScore, e.at, t);
    ExpandFrontier(goal, h, openSet, gScore, e, e.at, t, grid);
    ExpandCovered(goal, h, openSet, gScore, closed, e, t, grid);
  }

  /** Closing `c` = e.at and relaxing its neighbours with cost t = g_score[c] + 1
      keeps the invariant, with G extended by the score c was expanded with. */
  lemma AfterExpand(grid: Grid, start: Coord, goal: Coord, h: Heuristic, openSet: multiset<Entry>,
                    gScore: map<Coord, int>, closed: set<Coord>, G: map<Coord, int>,
                    walks: map<Coord, seq<Coord>>, e: Entry, t: int)
    requires Inv(grid, start, goal, h, openSet, gScore, closed, G, walks)
    requires e in openSet && e.at !in closed && e.at != goal
    requires e.at in gScore && t == gScore[e.at] + 1
    ensures var c := e.at;
            var imp := Improved(grid, gScore, c, t);
            Inv(grid, start, goal, h,
                (openSet - multiset{e}) + Pushes(goal, h, imp, t),
                Lowered(gScore, imp, t),
                closed + {c},
                G[c := gScore[c]],
                Extended(walks, imp, c))
  {
    var c := e.at;
    AfterExpandHeap(grid, start, goal, h, openSet, gScore, closed, e, t);
    ExpandRelaxed(grid, gScore, closed, G, c, t);
    ExpandWalks(grid, start, gScore, walks, c, t);
    if start !in closed {
      assert e == Push(goal, h, start, 0);
    }
  }

  /** Closing c with a score no walk beats keeps ExpansionsOptimal. */
  lemma OptimalAfterExpand(grid: Grid, start: Coord, closed: set<Coord>, G: map<Coord, int>, c: Coord, g: int)
    requires ExpansionsOptimal(grid, start, closed, G)
    requires forall w :: IsWalkFrom(grid, start, w) && Last(w) == c ==> g <= |w| - 1
    ensures ExpansionsOptimal(grid, start, closed + {c}, G[c := g])
  {
  }

  /** The first coordinate of `w` outside `s`. */
  lemma FirstOutside(w: seq<Coord>, s: set<Coord>) returns (j: int)
    requires |w| > 0 && Last(w) !in s
    ensures 0 <= j < |w| && w[j] !in s
    ensures forall i :: 0 <= i < j ==> w[i] in s
  {
    j := 0;
    while w[j] in s
      invariant 0 <= j < |w|
      invariant forall i :: 0 <= i < j ==> w[i] in s
      decreases |w| - j
    {
      j := j + 1;
    }
  }

  /** Along a walk, a consistent heuristic drops by at most one per step. */
  lemma {:induction false} HeuristicAlongWalk(grid: Grid, w: seq<Coord>, h: Heuristic, goal: Coord, i: int)
    requires IsWalk(grid, w) && Consistent(h, goal) && 0 <= i < |w|
    ensures h(w[i], goal) <= h(Last(w), goal) + (|w| - 1 - i) as real
    decreases |w| - i
  {
    if i < |w| - 1 {
      HeuristicAlongWalk(grid, w, h, goal, i + 1);
      assert w[i + 1] in Neighbours(w[i]);
    }
  }

  /** The least entry of the heap, when its coordinate is not closed yet and the
      heuristic is consistent, has a g no longer than the walk `w` to it. */
  lemma PoppedBeatsWalk(grid: Grid, start: Coord, goal: Coord, h: Heuristic, openSet: multiset<Entry>,
                      gScore: map<Coord, int>, closed: set<Coord>, G: map<Coord, int>,
                      e: Entry, w: seq<Coord>)
    requires ScoresSound(grid, start, gScore)
    requires FrontierSound(goal, h, openSet, gScore)
    requires OpenCovered(goal, h, openSet, gScore, closed)
    requires ClosedRelaxed(grid, gScore, closed, G)
    requires ExpansionsOptimal(grid, start, closed, G)
    requires Consistent(h, goal)
    requires IsMin(e, openSet) && e.at !in closed
    requires IsWalkFrom(grid, start, w) && Last(w) == e.at
    ensures e.g <= |w| - 1
  {
    // The first coordinate of w that is not closed is open with a score at most its index.
    var j := FirstOutside(w, closed);
    var u := w[j];
    if j > 0 {
      WalkPrefix(grid, w, j);
      assert Last(w[..j]) in closed;
      assert G[w[j - 1]] <= j - 1;
      assert u in Neighbours(w[j - 1]) && Passable(grid, u);
    }
    assert u in gScore && gScore[u] <= j;
    var pending := Push(goal, h, u, gScore[u]);
    assert pending in openSet;
    assert KeyLe(e, pending);
    HeuristicAlongWalk(grid, w, h, goal, j);
  }

  /** A* optimality: with a consistent heuristic, the least entry of the heap,
      when its coordinate is not closed yet, has a g that no walk from the start
      to that coordinate beats; closing it keeps every expansion optimal. */
  lemma PoppedOptimal(grid: Grid, start: Coord, goal: Coord, h: Heuristic, openSet: multiset<Entry>,
                      gScore: map<Coord, int>, closed: set<Coord>, G: map<Coord, int>, e: Entry)
    requires ScoresSound(grid, start, gScore)
    requires FrontierSound(goal, h, openSet, gScore)
    requires OpenCovered(goal, h, openSet, gScore, closed)
    requires ClosedRelaxed(grid, gScore, closed, G)
    requires ExpansionsOptimal(grid, start, closed, G)
    requires Consistent(h, goal)
    requires IsMin(e, openSet) && e.at !in closed
    ensures forall w :: IsWalkFrom(grid, start, w) && Last(w) == e.at ==> e.g <= |w| - 1
    ensures ExpansionsOptimal(grid, start, closed + {e.at}, G[e.at := e.g])
  {
    forall w | IsWalkFrom(grid, start, w) && Last(w) == e.at
      ensures e.g <= |w| - 1
    {
      PoppedBeatsWalk(grid, start, goal, h, openSet, gScore, closed, G, e, w);
    }
    OptimalAfterExpand(grid, start, closed, G, e.at, e.g);
  }

  /** Everything closed is reachable. */
  lemma ClosedReachable(grid: Grid, start: Coord, goal: Coord, h: Heuristic, openSet: multiset<Entry>,
                        gScore: map<Coord, int>, closed: set<Coord>, G: map<Coord, int>,
                        walks: map<Coord, seq<Coord>>)
    requires Inv(grid, start, goal, h, openSet, gScore, closed, G, walks)
    ensures forall c :: c in closed ==> Reachable(grid, start, c)
  {
    forall c | c in closed ensures Reachable(grid, start, c) {
      assert IsWalkFrom(grid, start, walks[c]) && Last(walks[c]) == c;
    }
  }

  /** With an empty heap, every coordinate of a walk from the start is closed. */
  lemma {:induction false} WalkClosed(grid: Grid, start: Coord, goal: Coord, h: Heuristic,
                                      gScore: map<Coord, int>, closed: set<Coord>, G: map<Coord, int>,
                                      walks: map<Coord, seq<Coord>>, w: seq<Coord>, i: int)
    requires Inv(grid, start, goal, h, multiset{}, gScore, closed, G, walks)
    requires IsWalkFrom(grid, start, w) && 0 <= i < |w|
    ensures w[i] in closed
    decreases i
  {
    if i > 0 {
      WalkClosed(grid, start, goal, h, gScore, closed, G, walks, w, i - 1);
      assert w[i] in Neighbours(w[i - 1]) && Passable(grid, w[i]);
    }
    // A scored coordinate outside the closed set would have an entry in the empty heap.
    assert w[i] in gScore;
  }

  /** When the heap runs empty, the closed set is exactly the set of coordinates
      reachable from the start; the goal, never closed, is unreachable. */
  lemma Exhausted(grid: Grid, start: Coord, goal: Coord, h: Heuristic,
                  gScore: map<Coord, int>, closed: set<Coord>, G: map<Coord, int>,
                  walks: map<Coord, seq<Coord>>)
    requires Inv(grid, start, goal, h, multiset{}, gScore, closed, G, walks)
    ensures forall c :: c in closed <==> Reachable(grid, start, c)
    ensures !Reachable(grid, start, goal) && start != goal
  {
    ClosedReachable(grid, start, goal, h, multiset{}, gScore, closed, G, walks);
    forall c | Reachable(grid, start, c) ensures c in closed {
      var w :| IsWalkFrom(grid, start, w) && Last(w) == c;
      WalkClosed(grid, start, goal, h, gScore, closed, G, walks, w, |w| - 1);
    }
    assert IsWalkFrom(grid, start, [start]);
  }

  /** The invariant of the search loop: `Inv`, and with a consistent heuristic
      every closed coordinate closed at its shortest distance. */
  ghost predicate LoopInv(grid: Grid, start: Coord, goal: Coord, h: Heuristic, openSet: multiset<Entry>,
                          gScore: map<Coord, int>, closed: set<Coord>, G: map<Coord, int>,
                          walks: map<Coord, seq<Coord>>) {
    Inv(grid, start, goal, h, openSet, gScore, closed, G, walks) &&
    (Consistent(h, goal) ==> ExpansionsOptimal(grid, start, closed, G))
  }

  /** The state before the first iteration satisfies the invariant: only the
      start is scored and pushed, at cost 0, and nothing is closed yet. */
  lemma LoopInvInit(grid: Grid, start: Coord, goal: Coord, h: Heuristic)
    ensures LoopInv(grid, start, goal, h, multiset{Push(goal, h, start, 0)}, map[start := 0], {}, map[],
                    map[start := [start]])
  {
  }

  /** Closing a coordinate other than the goal and relaxing its neighbours with
      cost g + 1 keeps the loop invariant; with a consistent heuristic the
      coordinate is closed at its shortest distance. The entry's score comes
      from PoppedScore. The state after the step is passed in as `openSet'` …
      `walks'`. */
  lemma CloseStep(grid: Grid, start: Coord, goal: Coord, h: Heuristic, openSet: multiset<Entry>,
                  gScore: map<Coord, int>, closed: set<Coord>, G: map<Coord, int>,
                  walks: map<Coord, seq<Coord>>, e: Entry,
                  openSet': multiset<Entry>, gScore': map<Coord, int>, closed': set<Coord>,
                  G': map<Coord, int>, walks': map<Coord, seq<Coord>>)
    requires LoopInv(grid, start, goal, h, openSet, gScore, closed, G, walks)
    requires IsMin(e, openSet) && e.at !in closed && e.at != goal
    requires e.at in gScore && e.g == gScore[e.at]
    requires var c, t := e.at, e.g + 1;
             var imp := Improved(grid, gScore, c, t);
             openSet' == (openSet - multiset{e}) + Pushes(goal, h, imp, t) &&
             gScore' == Lowered(gScore, imp, t) &&
             closed' == closed + {c} &&
             G' == G[c := e.g] &&
             c in walks && walks' == Extended(walks, imp, c)
    ensures LoopInv(grid, start, goal, h, openSet', gScore', closed', G', walks')
  {
    if Consistent(h, goal) {
      PoppedOptimal(grid, start, goal, h, openSet, gScore, closed, G, e);
    }
    AfterExpand(grid, start, goal, h, openSet, gScore, closed, G, walks, e, e.g + 1);
  }

  /** Popping the goal's entry: every closed coordinate and the goal are
      reachable, the goal in exactly g steps, which are the fewest when the
      heuristic is consistent; when the start is the goal nothing was closed
      before. */
  lemma GoalPop(grid: Grid, start: Coord, goal: Coord, h: Heuristic, openSet: multiset<Entry>,
                gScore: map<Coord, int>, closed: set<Coord>, G: map<Coord, int>,
                walks: map<Coord, seq<Coord>>, e: Entry)
    requires LoopInv(grid, start, goal, h, openSet, gScore, closed, G, walks)
    requires IsMin(e, openSet) && e.at !in closed
    requires e.at == goal && e.at in gScore && e.g == gScore[e.at]
    ensures forall c :: c in closed + {goal} ==> Reachable(grid, start, c)
    ensures exists w :: IsWalkFrom(grid, start, w) && Last(w) == goal && |w| == e.g + 1
    ensures start == goal ==> closed == {} && e.g == 0
    ensures Consistent(h, goal) ==> IsShortest(grid, start, goal, e.g)
  {
    ClosedReachable(grid, start, goal, h, openSet, gScore, closed, G, walks);
    assert IsWalkFrom(grid, start, walks[goal]) && Last(walks[goal]) == goal;
    if Consistent(h, goal) {
      PoppedOptimal(grid, start, goal, h, openSet, gScore, closed, G, e);
    }
    if start == goal {
      assert closed == {};
    }
  }

  /** One pop of the search loop, in all three of its branches: a stale entry
      is dropped; the goal's entry is reachable with its g steps, which are the
      fewest when the heuristic is consistent; any other entry closes its
      coordinate and relaxes its neighbours with cost g + 1. Closing leaves
      fewer coordinates of `domain` unclosed. */
  lemma LoopStep(grid: Grid, start: Coord, goal: Coord, h: Heuristic, openSet: multiset<Entry>,
                 gScore: map<Coord, int>, closed: set<Coord>, G: map<Coord, int>,
                 walks: map<Coord, seq<Coord>>, e: Entry, domain: set<Coord>)
    requires LoopInv(grid, start, goal, h, openSet, gScore, closed, G, walks)
    requires IsMin(e, openSet)
    requires start in domain && forall c :: Passable(grid, c) ==> c in domain
    ensures e.at in closed ==>
              LoopInv(grid, start, goal, h, openSet - multiset{e}, gScore, closed, G, walks)
    ensures e.at !in closed ==>
              e.at in gScore && e.g == gScore[e.at] &&
              |domain - (closed + {e.at})| < |domain - closed| && |closed + {e.at}| == |closed| + 1
    ensures e.at !in closed && e.at == goal ==>
              (forall c :: c in closed + {goal} ==> Reachable(grid, start, c)) &&
              (exists w :: IsWalkFrom(grid, start, w) && Last(w) == goal && |w| == e.g + 1) &&
              (start == goal ==> closed == {} && e.g == 0) &&
              (Consistent(h, goal) ==> IsShortest(grid, start, goal, e.g))
    ensures e.at !in closed && e.at != goal ==>
              var c, t := e.at, e.g + 1;
              var imp := Improved(grid, gScore, c, t);
              LoopInv(grid, start, goal, h, (openSet - multiset{e}) + Pushes(goal, h, imp, t),
                      Lowered(gScore, imp, t), closed + {c}, G[c := e.g], Extended(walks, imp, c))
  {
    if e.at in closed {
      StalePop(grid, start, goal, h, openSet, gScore, closed, G, walks, e);
      return;
    }
    PoppedScore(goal, h, openSet, gScore, closed, e);
    CloseShrinks(domain, closed, e.at);
    if e.at == goal {
      GoalPop(grid, start, goal, h, openSet, gScore, closed, G, walks, e);
    } else {
      var c, t := e.at, e.g + 1;
      var imp := Improved(grid, gScore, c, t);
      CloseStep(grid, start, goal, h, openSet, gScore, closed, G, walks, e,
                (openSet - multiset{e}) + Pushes(goal, h, imp, t), Lowered(gScore, imp, t),
                closed + {c}, G[c := e.g], Extended(walks, imp, c));
    }
  }
}
