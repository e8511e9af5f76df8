/** The open set of both searches: a heap of (f, g, coordinate) tuples, seen
    here as the multiset of its entries. `heapq.heappop` removes the least
    entry in Python's tuple order, which is total on these tuples, so the
    removed entry is determined by the multiset alone. */
module Frontier {
  import opened Grid

  /** One heap entry: estimated total cost f, cost so far g, and the coordinate. */
  datatype Entry = Entry(f: real, g: int, at: Coord)

  /** Python's lexicographic order on (f, g, (x, y)). */
  predicate KeyLe(a: Entry, b: Entry) {
    a.f < b.f ||
    (a.f == b.f && (a.g < b.g ||
      (a.g == b.g && (a.at.x < b.at.x ||
        (a.at.x == b.at.x && a.at.y <= b.at.y)))))
  }

  /** `e` is an entry of `s` that no entry of `s` precedes. */
  predicate IsMin(e: Entry, s: multiset<Entry>) {
    e in s && forall d :: d in s ==> KeyLe(e, d)
  }

  /** The order is total, transitive and antisymmetric, so at most one entry is minimal. */
  lemma KeyLeTotalOrder(a: Entry, b: Entry, c: Entry)
    ensures KeyLe(a, b) || KeyLe(b, a)
    ensures KeyLe(a, b) && KeyLe(b, c) ==> KeyLe(a, c)
    ensures KeyLe(a, b) && KeyLe(b, a) ==> a == b
  {
  }

  /** Every non-empty open set has a minimal entry. */
  lemma {:induction false} MinExists(s: multiset<Entry>)
    requires |s| > 0
    ensures exists e :: IsMin(e, s)
    decreases |s|
  {
    var x :| x in s;
    var rest := s - multiset{x};
    assert s == rest + multiset{x};
    if |rest| == 0 {
      assert s == multiset{x};
      assert IsMin(x, s);
    } else {
      MinExists(rest);
      var m :| IsMin(m, rest);
      if KeyLe(m, x) {
        forall d | d in s ensures KeyLe(m, d) {
          if d != x {
            assert d in rest;
          }
        }
        assert IsMin(m, s);
      } else {
        forall d | d in s ensures KeyLe(x, d) {
          if d != x {
            assert d in rest;
            KeyLeTotalOrder(x, m, d);
          }
        }
        assert IsMin(x, s);
      }
    }
  }

  /** The minimal entry is unique: the pop does not depend on how the heap
      happens to be laid out. */
  lemma MinUnique(a: Entry, b: Entry, s: multiset<Entry>)
    requires IsMin(a, s) && IsMin(b, s)
    ensures a == b
  {
    KeyLeTotalOrder(a, b, a);
  }

  /** `heapq.heappop` on a non-empty heap: remove and return its least entry. */
  method PopMin(openSet: multiset<Entry>) returns (e: Entry, rest: multiset<Entry>)
    requires |openSet| > 0
    ensures IsMin(e, openSet)
    ensures rest == openSet - multiset{e} && rest + multiset{e} == openSet
  {
    MinExists(openSet);
    e :| IsMin(e, openSet);
    rest := openSet - multiset{e};
  }
}
