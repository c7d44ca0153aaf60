/** `findPath` (ui/js/village.js): A* over 4-neighbour moves with the
    terrain costs of `Grid` and the Manhattan heuristic. The open list is
    a sequence re-sorted by `f` before each removal of its head, the
    closed set a set of cells, and each node's `g`, `f` and parent are
    kept in maps keyed by cell (one node object exists per cell). */
module Pathfinder {
  import opened Wrappers
  import opened Grid

  predicate AllIn(s: seq<Cell>, f: map<Cell, nat>) {
    forall i :: 0 <= i < |s| ==> s[i] in f
  }

  predicate SortedByF(s: seq<Cell>, f: map<Cell, nat>)
    requires AllIn(s, f)
  {
    forall i, j :: 0 <= i < j < |s| ==> f[s[i]] <= f[s[j]]
  }

  /** Inserts `c` before the first element whose `f` is not smaller, so
      that it stays ahead of the later elements with the same `f`. */
  function InsertByF(c: Cell, s: seq<Cell>, f: map<Cell, nat>): (r: seq<Cell>)
    requires c in f && AllIn(s, f)
    ensures multiset(r) == multiset(s) + multiset{c}
    ensures AllIn(r, f)
  {
    if |s| == 0 || f[c] <= f[s[0]] then [c] + s
    else
      assert s == [s[0]] + s[1..];
      [s[0]] + InsertByF(c, s[1..], f)
  }

  lemma {:induction false} InsertKeepsSorted(c: Cell, s: seq<Cell>, f: map<Cell, nat>)
    requires c in f && AllIn(s, f) && SortedByF(s, f)
    ensures SortedByF(InsertByF(c, s, f), f)
    ensures |s| > 0 ==> InsertByF(c, s, f)[0] == c || InsertByF(c, s, f)[0] == s[0]
  {
    if |s| > 0 && f[c] > f[s[0]] {
      var t := InsertByF(c, s[1..], f);
      InsertKeepsSorted(c, s[1..], f);
      var r := [s[0]] + t;
      forall j | 0 < j < |r| ensures f[r[0]] <= f[r[j]] {
        if |s[1..]| == 0 {
          assert t == [c];
        } else {
          assert r[1] == c || r[1] == s[1];
          assert f[r[0]] <= f[r[1]];
        }
      }
    }
  }

  /** Where `InsertByF` puts `c`: after the elements with a smaller `f`
      that lead `s`. */
  function InsertIndex(c: Cell, s: seq<Cell>, f: map<Cell, nat>): (k: nat)
    requires c in f && AllIn(s, f)
    ensures k <= |s|
  {
    if |s| == 0 || f[c] <= f[s[0]] then 0 else 1 + InsertIndex(c, s[1..], f)
  }

  /** Insertion leaves `s` in order around `c`, which goes before the first
      element whose `f` is not smaller: so an element already in the list
      stays ahead of a later one with the same `f`, the order a stable
      sort keeps. */
  lemma InsertAt(c: Cell, s: seq<Cell>, f: map<Cell, nat>)
    requires c in f && AllIn(s, f)
    ensures var k := InsertIndex(c, s, f);
      InsertByF(c, s, f) == s[..k] + [c] + s[k..] &&
      (forall j :: 0 <= j < k ==> f[s[j]] < f[c]) && (k < |s| ==> f[c] <= f[s[k]])
  {
    InsertShape(c, s, f);
    InsertBefore(c, s, f);
  }

  lemma {:induction false} InsertShape(c: Cell, s: seq<Cell>, f: map<Cell, nat>)
    requires c in f && AllIn(s, f)
    ensures var k := InsertIndex(c, s, f); InsertByF(c, s, f) == s[..k] + [c] + s[k..]
  {
    if |s| > 0 && f[c] > f[s[0]] {
      var k := InsertIndex(c, s[1..], f);
      InsertShape(c, s[1..], f);
      assert InsertIndex(c, s, f) == k + 1;
      assert InsertByF(c, s, f) == [s[0]] + InsertByF(c, s[1..], f);
      ConsSplit(s, k, c);
    }
  }

  /** Putting the head back in front of a split tail splits the whole
      sequence one place later. */
  lemma ConsSplit(s: seq<Cell>, k: nat, c: Cell)
    requires 0 < |s| && k <= |s| - 1
    ensures [s[0]] + (s[1..][..k] + [c] + s[1..][k..]) == s[..k + 1] + [c] + s[k + 1..]
  {
    assert s[..k + 1] == [s[0]] + s[1..][..k];
    assert s[k + 1..] == s[1..][k..];
  }

  lemma {:induction false} InsertBefore(c: Cell, s: seq<Cell>, f: map<Cell, nat>)
    requires c in f && AllIn(s, f)
    ensures var k := InsertIndex(c, s, f);
      (forall j :: 0 <= j < k ==> f[s[j]] < f[c]) && (k < |s| ==> f[c] <= f[s[k]])
  {
    if |s| > 0 && f[c] > f[s[0]] {
      var k := InsertIndex(c, s[1..], f);
      InsertBefore(c, s[1..], f);
      forall j | 0 <= j < k + 1 ensures f[s[j]] < f[c] {
        if j > 0 {
          assert s[j] == s[1..][j - 1];
        }
      }
    }
  }

  /** `openSet.sort((a, b) => a.f - b.f)`: a stable sort by `f`. */
  function SortByF(s: seq<Cell>, f: map<Cell, nat>): (r: seq<Cell>)
    requires AllIn(s, f)
    ensures multiset(r) == multiset(s)
    ensures AllIn(r, f) && SortedByF(r, f)
  {
    if |s| == 0 then []
    else
      assert s == [s[0]] + s[1..];
      var t := SortByF(s[1..], f);
      InsertKeepsSorted(s[0], t, f);
      InsertByF(s[0], t, f)
  }

  /** After sorting, the head has the least `f` of the whole open list. */
  lemma SortedHeadIsMin(s: seq<Cell>, f: map<Cell, nat>)
    requires AllIn(s, f) && |s| > 0
    ensures SortByF(s, f)[0] in s
    ensures forall v :: v in s ==> f[SortByF(s, f)[0]] <= f[v]
  {
    var r := SortByF(s, f);
    assert r[0] in multiset(r);
    forall v | v in s ensures f[r[0]] <= f[v] {
      assert v in multiset(r);
      var j :| 0 <= j < |r| && r[j] == v;
    }
  }

  /** The search state: `openSet`, `closedSet`, and each node's fields. */
  datatype Search = Search(open: seq<Cell>, closed: set<Cell>, g: map<Cell, nat>,
                           f: map<Cell, nat>, parent: map<Cell, Cell>)

  /** The open and closed cells are exactly the cells with a node; no cell
      is both open and closed, or open twice; `f` is `g` plus the
      heuristic; the goal is never closed; the start is closed from the
      first expansion on. */
  ghost predicate Bookkeeping(st: Search, start: Cell, goal: Cell) {
    (forall v :: v in st.g <==> v in st.closed || v in st.open) &&
    (forall v :: v in st.f <==> v in st.g) &&
    (forall v :: v in st.g ==> v in st.f && st.f[v] == st.g[v] + Heuristic(v, goal)) &&
    (forall v :: v in st.open ==> v !in st.closed) &&
    (forall v :: multiset(st.open)[v] <= 1) &&
    goal !in st.closed &&
    (start in st.closed || (st.closed == {} && st.open == [start]))
  }

  /** The parent links: the start has `g` 0 and no parent; every other node
      has a closed parent it is adjacent to, is passable, and its `g` is
      its parent's plus its own cost. */
  ghost predicate Tree(grid: Map, start: Cell, closed: set<Cell>, g: map<Cell, nat>,
                       parent: map<Cell, Cell>) {
    start in g && g[start] == 0 && parent.Keys == g.Keys - {start} &&
    (forall v :: v in parent ==>
      parent[v] in closed && parent[v] in g &&
      Adjacent(parent[v], v) && Passable(grid, v) &&
      g[v] == g[parent[v]] + Cost(grid, v).value)
  }

  /** A closed cell's `g` is no more than the cost of any route to it. */
  ghost predicate ClosedOptimal(grid: Map, start: Cell, st: Search) {
    forall u, q :: u in st.closed && IsRoute(grid, start, q) && EndOf(start, q) == u ==>
      u in st.g && st.g[u] <= RouteCost(grid, q)
  }

  /** Every passable neighbour of a cell of `us` is closed, or open with a
      `g` no more than reaching it through that cell. */
  ghost predicate Relaxed(grid: Map, us: set<Cell>, st: Search) {
    forall u, n :: u in us && Adjacent(u, n) && Passable(grid, n) ==>
      n in st.closed ||
      (n in st.open && u in st.g && n in st.g && st.g[n] <= st.g[u] + Cost(grid, n).value)
  }

  ghost predicate Inv(grid: Map, start: Cell, goal: Cell, st: Search) {
    Bookkeeping(st, start, goal) && Tree(grid, start, st.closed, st.g, st.parent) &&
    ClosedOptimal(grid, start, st) && Relaxed(grid, st.closed, st)
  }

  /** Every route to a cell that is not closed passes the open list: some
      open cell's `f` is at most the route's cost plus the heuristic at
      its end (the heuristic is consistent and every step costs 1 or more). */
  lemma {:induction false} FrontierBound(grid: Map, start: Cell, goal: Cell, st: Search, p: seq<Cell>)
    requires Inv(grid, start, goal, st)
    requires IsRoute(grid, start, p) && EndOf(start, p) !in st.closed
    ensures exists v :: (v in st.open && v in st.f &&
      st.f[v] <= RouteCost(grid, p) + Heuristic(EndOf(start, p), goal))
    decreases |p|
  {
    if |p| == 0 {
      assert st.open == [start] && start in st.open;
      assert start in st.g && st.g[start] == 0;
    } else {
      var q := p[..|p| - 1];
      var u := EndOf(start, q);
      var e := p[|p| - 1];
      assert IsRoute(grid, start, q) && Passable(grid, e) && Adjacent(u, e);
      assert RouteCost(grid, p) == RouteCost(grid, q) + Cost(grid, e).value;
      HeuristicConsistent(grid, u, e, goal);
      if u !in st.closed {
        FrontierBound(grid, start, goal, st, q);
      } else {
        ClosedStep(grid, start, goal, st, q, e);
      }
    }
  }

  /** A route whose last step leaves a closed cell ends at an open cell
      whose `f` is within the route's cost plus its heuristic. */
  lemma ClosedStep(grid: Map, start: Cell, goal: Cell, st: Search, q: seq<Cell>, e: Cell)
    requires Inv(grid, start, goal, st)
    requires IsRoute(grid, start, q) && EndOf(start, q) in st.closed
    requires Passable(grid, e) && Adjacent(EndOf(start, q), e) && e !in st.closed
    ensures e in st.open && e in st.f &&
      st.f[e] <= RouteCost(grid, q) + Cost(grid, e).value + Heuristic(e, goal)
  {
    var u := EndOf(start, q);
    assert ClosedOptimal(grid, start, st);
    assert u in st.g && st.g[u] <= RouteCost(grid, q);
    assert Relaxed(grid, st.closed, st);
  }

  /** The head of the sorted open list already has its least cost. */
  lemma PopIsOptimal(grid: Map, start: Cell, goal: Cell, st: Search, curr: Cell)
    requires Inv(grid, start, goal, st)
    requires curr in st.open && curr in st.f
    requires forall v :: v in st.open && v in st.f ==> st.f[curr] <= st.f[v]
    ensures curr in st.g
    ensures forall q :: IsRoute(grid, start, q) && EndOf(start, q) == curr ==>
      st.g[curr] <= RouteCost(grid, q)
  {
    forall q | IsRoute(grid, start, q) && EndOf(start, q) == curr
      ensures st.g[curr] <= RouteCost(grid, q)
    {
      FrontierBound(grid, start, goal, st, q);
    }
  }

  /** With the open list empty, no route reaches the goal. */
  lemma ExhaustedMeansUnreachable(grid: Map, start: Cell, goal: Cell, st: Search)
    requires Inv(grid, start, goal, st) && st.open == []
    ensures !Reachable(grid, start, goal)
  {
    if Reachable(grid, start, goal) {
      var p :| IsRoute(grid, start, p) && EndOf(start, p) == goal;
      FrontierBound(grid, start, goal, st, p);
    }
  }

  /** The relaxation of the first `i` neighbours of `curr` is done. */
  ghost predicate RelaxedUpTo(grid: Map, curr: Cell, i: int, st: Search) {
    curr in st.g &&
    forall k :: 0 <= k < i && 0 <= k < 4 && Passable(grid, Neighbors(curr)[k]) ==>
      Neighbors(curr)[k] in st.closed ||
      (Neighbors(curr)[k] in st.open && Neighbors(curr)[k] in st.g &&
       st.g[Neighbors(curr)[k]] <= st.g[curr] + Cost(grid, Neighbors(curr)[k]).value)
  }

  /** The invariant of the neighbour loop of the expansion of `curr`. */
  ghost predicate Expanding(grid: Map, start: Cell, goal: Cell, curr: Cell, i: int, st: Search) {
    curr in st.closed &&
    Bookkeeping(st, start, goal) && Tree(grid, start, st.closed, st.g, st.parent) &&
    ClosedOptimal(grid, start, st) && Relaxed(grid, st.closed - {curr}, st) &&
    RelaxedUpTo(grid, curr, i, st)
  }

  /** Removing the head of a sorted copy of a repetition-free open list. */
  lemma PopOpen(open: seq<Cell>, sorted: seq<Cell>)
    requires |sorted| > 0 && multiset(sorted) == multiset(open)
    requires forall v :: multiset(open)[v] <= 1
    ensures sorted[0] in open
    ensures forall v :: v in sorted[1..] <==> v in open && v != sorted[0]
    ensures forall v :: multiset(sorted[1..])[v] <= 1
  {
    var curr := sorted[0];
    var rest := sorted[1..];
    assert curr in multiset(open);
    assert sorted == [curr] + rest;
    assert multiset(open) == multiset{curr} + multiset(rest);
    forall v ensures multiset(rest)[v] <= 1 && (v in rest <==> v in open && v != curr) {
      assert multiset(open)[v] == multiset{curr}[v] + multiset(rest)[v];
      assert v in rest <==> multiset(rest)[v] > 0;
      assert v in open <==> multiset(open)[v] > 0;
    }
  }

  lemma PopBookkeeping(st: Search, start: Cell, goal: Cell, sorted: seq<Cell>)
    requires Bookkeeping(st, start, goal)
    requires |sorted| > 0 && multiset(sorted) == multiset(st.open) && sorted[0] != goal
    ensures Bookkeeping(st.(open := sorted[1..], closed := st.closed + {sorted[0]}), start, goal)
  {
    PopOpen(st.open, sorted);
  }

  lemma PopClosedOptimal(grid: Map, start: Cell, st: Search, curr: Cell)
    requires ClosedOptimal(grid, start, st) && curr in st.g
    requires forall q :: IsRoute(grid, start, q) && EndOf(start, q) == curr ==>
      st.g[curr] <= RouteCost(grid, q)
    ensures ClosedOptimal(grid, start, st.(closed := st.closed + {curr}))
  {
  }

  lemma GrowTree(grid: Map, start: Cell, closed: set<Cell>, g: map<Cell, nat>,
                  parent: map<Cell, Cell>, curr: Cell)
    requires Tree(grid, start, closed, g, parent)
    ensures Tree(grid, start, closed + {curr}, g, parent)
  {
  }

  lemma PopRelaxed(grid: Map, st: Search, sorted: seq<Cell>)
    requires Relaxed(grid, st.closed, st)
    requires |sorted| > 0 && forall v :: v in sorted[1..] <==> v in st.open && v != sorted[0]
    ensures Relaxed(grid, st.closed, st.(open := sorted[1..], closed := st.closed + {sorted[0]}))
  {
  }

  /** Moving the least-`f` open cell to the closed set starts its expansion. */
  lemma StartExpanding(grid: Map, start: Cell, goal: Cell, st: Search, sorted: seq<Cell>)
    requires Inv(grid, start, goal, st)
    requires |sorted| > 0 && multiset(sorted) == multiset(st.open)
    requires sorted[0] in st.f && forall v :: v in st.open && v in st.f ==> st.f[sorted[0]] <= st.f[v]
    requires sorted[0] != goal
    ensures Expanding(grid, start, goal, sorted[0], 0,
                      st.(open := sorted[1..], closed := st.closed + {sorted[0]}))
  {
    var curr := sorted[0];
    PopOpen(st.open, sorted);
    PopIsOptimal(grid, start, goal, st, curr);
    var st' := st.(open := sorted[1..], closed := st.closed + {curr});
    PopBookkeeping(st, start, goal, sorted);
    PopClosedOptimal(grid, start, st, curr);
    PopRelaxed(grid, st, sorted);
    GrowTree(grid, start, st.closed, st.g, st.parent, curr);
    assert st'.closed - {curr} == st.closed;
  }

  /** Relaxing neighbour `i` of `curr` when it is closed, impassable, or
      already open with a cost no greater than through `curr`: nothing
      changes. */
  lemma RelaxSkip(grid: Map, start: Cell, goal: Cell, curr: Cell, i: int, st: Search)
    requires 0 <= i < 4 && Expanding(grid, start, goal, curr, i, st)
    requires var n := Neighbors(curr)[i];
      n in st.closed || !Passable(grid, n) ||
      (n in st.open && n in st.g && st.g[curr] + Cost(grid, n).value >= st.g[n])
    ensures Expanding(grid, start, goal, curr, i + 1, st)
  {
  }

  /** Giving a cell that is not closed a parent `curr` and the cost
      through it keeps the parent links well formed. */
  lemma TreeUpdate(grid: Map, start: Cell, closed: set<Cell>, g: map<Cell, nat>,
                   parent: map<Cell, Cell>, curr: Cell, n: Cell, gn: nat)
    requires Tree(grid, start, closed, g, parent)
    requires curr in closed && curr in g && n !in closed && n != start
    requires Adjacent(curr, n) && Passable(grid, n) && gn == g[curr] + Cost(grid, n).value
    ensures Tree(grid, start, closed, g[n := gn], parent[n := curr])
  {
  }

  /** Changing the `g` of a cell that is not closed keeps the closed cells
      optimal. */
  lemma ClosedOptimalUpdate(grid: Map, start: Cell, st: Search, st': Search, n: Cell)
    requires ClosedOptimal(grid, start, st) && n !in st.closed
    requires st'.closed == st.closed && forall v :: v != n && v in st.g ==> v in st'.g && st'.g[v] == st.g[v]
    ensures ClosedOptimal(grid, start, st')
  {
  }

  /** Lowering the `g` of an open cell, or adding a new open cell, keeps
      the relaxation facts already established. */
  lemma RelaxedUpdate(grid: Map, curr: Cell, i: int, st: Search, st': Search, n: Cell)
    requires 0 <= i < 4
    requires Relaxed(grid, st.closed - {curr}, st) && RelaxedUpTo(grid, curr, i, st)
    requires curr in st.closed && n !in st.closed && n != curr
    requires st'.closed == st.closed
    requires forall v :: v in st.open ==> v in st'.open
    requires forall v :: v in st.g ==> v in st'.g && st'.g[v] <= st.g[v]
    requires forall v :: v != n && v in st.g ==> st'.g[v] == st.g[v]
    requires n == Neighbors(curr)[i] && n in st'.open && n in st'.g && curr in st'.g
    requires Passable(grid, n) ==> st'.g[n] <= st'.g[curr] + Cost(grid, n).value
    ensures Relaxed(grid, st.closed - {curr}, st') && RelaxedUpTo(grid, curr, i + 1, st')
  {
  }

  /** Relaxing a passable neighbour seen for the first time: it joins the
      end of the open list with `curr` as parent. */
  lemma RelaxNew(grid: Map, start: Cell, goal: Cell, curr: Cell, i: int,
                 open: seq<Cell>, closed: set<Cell>, g: map<Cell, nat>, f: map<Cell, nat>,
                 parent: map<Cell, Cell>, n: Cell, gn: nat)
    requires 0 <= i < 4 && Expanding(grid, start, goal, curr, i, Search(open, closed, g, f, parent))
    requires n == Neighbors(curr)[i] && n !in closed && Passable(grid, n) && n !in open
    requires gn == g[curr] + Cost(grid, n).value
    ensures Expanding(grid, start, goal, curr, i + 1,
      Search(open + [n], closed, g[n := gn], f[n := gn + Heuristic(n, goal)], parent[n := curr]))
  {
    var st := Search(open, closed, g, f, parent);
    var st' := Search(open + [n], closed, g[n := gn], f[n := gn + Heuristic(n, goal)],
                      parent[n := curr]);
    assert n !in g;
    assert multiset(st'.open) == multiset(open) + multiset{n};
    assert Bookkeeping(st', start, goal);
    TreeUpdate(grid, start, closed, g, parent, curr, n, gn);
    ClosedOptimalUpdate(grid, start, st, st', n);
    RelaxedUpdate(grid, curr, i, st, st', n);
  }

  /** Relaxing an open neighbour that is cheaper through `curr`: its `g`,
      `f` and parent are updated where it stands in the open list. */
  lemma RelaxBetter(grid: Map, start: Cell, goal: Cell, curr: Cell, i: int,
                    open: seq<Cell>, closed: set<Cell>, g: map<Cell, nat>, f: map<Cell, nat>,
                    parent: map<Cell, Cell>, n: Cell, gn: nat)
    requires 0 <= i < 4 && Expanding(grid, start, goal, curr, i, Search(open, closed, g, f, parent))
    requires n == Neighbors(curr)[i] && n !in closed && Passable(grid, n) && n in open && n in g
    requires gn == g[curr] + Cost(grid, n).value && gn < g[n]
    ensures Expanding(grid, start, goal, curr, i + 1,
      Search(open, closed, g[n := gn], f[n := gn + Heuristic(n, goal)], parent[n := curr]))
  {
    var st := Search(open, closed, g, f, parent);
    var st' := Search(open, closed, g[n := gn], f[n := gn + Heuristic(n, goal)], parent[n := curr]);
    assert n != start;
    assert Bookkeeping(st', start, goal);
    TreeUpdate(grid, start, closed, g, parent, curr, n, gn);
    ClosedOptimalUpdate(grid, start, st, st', n);
    RelaxedUpdate(grid, curr, i, st, st', n);
  }

  /** Once all four neighbours are relaxed the loop invariant holds again. */
  lemma FinishExpanding(grid: Map, start: Cell, goal: Cell, curr: Cell, st: Search)
    requires Expanding(grid, start, goal, curr, 4, st)
    ensures Inv(grid, start, goal, st)
  {
    forall u, n | u in st.closed && Adjacent(u, n) && Passable(grid, n)
      ensures n in st.closed ||
        (n in st.open && u in st.g && n in st.g && st.g[n] <= st.g[u] + Cost(grid, n).value)
    {
      if u == curr {
        AdjacentIsNeighbor(u, n);
        var k :| 0 <= k < 4 && Neighbors(curr)[k] == n;
      }
    }
  }

  /** The cells a search can ever hold a node for: the grid's cells and
      the start. */
  ghost function Universe(grid: Map, start: Cell): set<Cell> {
    (set x, y | 0 <= x < Width(grid) && 0 <= y < |grid| :: Cell(x, y)) + {start}
  }

  lemma PassableInUniverse(grid: Map, start: Cell, c: Cell)
    requires Passable(grid, c)
    ensures c in Universe(grid, start)
  {
    assert Cell(c.x, c.y) == c;
  }

  /** The search begins with the start alone on the open list. */
  lemma InitialInv(grid: Map, start: Cell, goal: Cell)
    ensures Inv(grid, start, goal,
      Search([start], {}, map[start := 0], map[start := Heuristic(start, goal)], map[]))
  {
    assert multiset([start]) == multiset{start};
  }

  /** No cell occurs twice in `s`. */
  predicate Distinct(s: seq<Cell>) {
    forall i, j :: 0 <= i < j < |s| ==> s[i] != s[j]
  }

  lemma AppendDistinct(s: seq<Cell>, c: Cell)
    requires Distinct(s) && c !in s
    ensures Distinct(s + [c])
  {
  }

  lemma Shrinks(universe: set<Cell>, closed: set<Cell>, curr: Cell)
    requires curr in universe && curr !in closed
    ensures |universe - (closed + {curr})| < |universe - closed|
  {
    assert universe - closed == (universe - (closed + {curr})) + {curr};
  }

  /** A least-cost route to the goal that leaves out the start is empty
      exactly when the start is the goal. */
  lemma FoundGoal(grid: Map, start: Cell, goal: Cell, path: seq<Cell>, best: nat)
    requires IsRoute(grid, start, path) && EndOf(start, path) == goal && start !in path
    requires RouteCost(grid, path) == best
    requires forall q :: IsRoute(grid, start, q) && EndOf(start, q) == goal ==> best <= RouteCost(grid, q)
    ensures path != [] ==> path[|path| - 1] == goal
    ensures path == [] <==> start == goal || !Reachable(grid, start, goal)
    ensures forall q :: IsRoute(grid, start, q) && EndOf(start, q) == goal ==>
      RouteCost(grid, path) <= RouteCost(grid, q)
  {
    if path != [] {
      assert path[|path| - 1] in path;
    }
  }

  /** `findPath(startX, startY, endX, endY, grid)`. The result leaves out
      the start and is empty exactly when the start is the goal or the goal
      cannot be reached; otherwise it is a route to the goal of least total
      cost. No cell is expanded twice. */
  method FindPath(grid: Map, start: Cell, goal: Cell) returns (path: seq<Cell>, ghost expanded: seq<Cell>)
    ensures path != [] ==> IsRoute(grid, start, path) && path[|path| - 1] == goal && start !in path
    ensures path == [] <==> start == goal || !Reachable(grid, start, goal)
    ensures forall q :: IsRoute(grid, start, q) && EndOf(start, q) == goal ==>
      RouteCost(grid, path) <= RouteCost(grid, q)
    ensures |grid| == 0 || |grid[0]| == 0 ==> path == []
    ensures Distinct(expanded)
  {
    expanded := [];
    if |grid| == 0 || |grid[0]| == 0 {
      forall p | IsRoute(grid, start, p) ensures p == [] {
        NoRoutesInEmptyGrid(grid, start, p);
      }
      return [], expanded;
    }
    var open := [start];
    var closed: set<Cell> := {};
    var g: map<Cell, nat> := map[start := 0];
    var f: map<Cell, nat> := map[start := Heuristic(start, goal)];
    var parent: map<Cell, Cell> := map[];
    ghost var universe := Universe(grid, start);
    forall c | Passable(grid, c) ensures c in universe {
      PassableInUniverse(grid, start, c);
    }
    InitialInv(grid, start, goal);
    while |open| > 0
      invariant Inv(grid, start, goal, Search(open, closed, g, f, parent))
      invariant forall v :: v in g ==> v in universe
      invariant forall v :: v in expanded <==> v in closed
      invariant Distinct(expanded)
      decreases |universe - closed|
    {
      ghost var st := Search(open, closed, g, f, parent);
      var sorted := SortByF(open, f);
      SortedHeadIsMin(open, f);
      var curr := sorted[0];
      if curr == goal {
        PopIsOptimal(grid, start, goal, st, curr);
        path := Reconstruct(grid, start, goal, closed, g, parent);
        FoundGoal(grid, start, goal, path, g[goal]);
        return;
      }
      StartExpanding(grid, start, goal, st, sorted);
      Shrinks(universe, closed, curr);
      open := sorted[1..];
      closed := closed + {curr};
      AppendDistinct(expanded, curr);
      expanded := expanded + [curr];
      open, g, f, parent := RelaxNeighbors(grid, start, goal, curr, open, closed, g, f, parent, universe);
      FinishExpanding(grid, start, goal, curr, Search(open, closed, g, f, parent));
    }
    ExhaustedMeansUnreachable(grid, start, goal, Search(open, closed, g, f, parent));
    path := [];
  }

  /** The `for (const n of neighbors)` loop of the expansion of `curr`:
      each passable neighbour that is not closed joins the open list, or
      gets `curr` as parent when that lowers its `g`. */
  method RelaxNeighbors(grid: Map, start: Cell, goal: Cell, curr: Cell,
                        open0: seq<Cell>, closed: set<Cell>, g0: map<Cell, nat>,
                        f0: map<Cell, nat>, parent0: map<Cell, Cell>, ghost universe: set<Cell>)
    returns (open: seq<Cell>, g: map<Cell, nat>, f: map<Cell, nat>, parent: map<Cell, Cell>)
    requires Expanding(grid, start, goal, curr, 0, Search(open0, closed, g0, f0, parent0))
    requires forall v :: v in g0 ==> v in universe
    requires forall c :: Passable(grid, c) ==> c in universe
    ensures Expanding(grid, start, goal, curr, 4, Search(open, closed, g, f, parent))
    ensures forall v :: v in g ==> v in universe
  {
    open, g, f, parent := open0, g0, f0, parent0;
    var ns := Neighbors(curr);
    for i := 0 to 4
      invariant Expanding(grid, start, goal, curr, i, Search(open, closed, g, f, parent))
      invariant forall v :: v in g ==> v in universe
    {
      var n := ns[i];
      if n in closed {
        RelaxSkip(grid, start, goal, curr, i, Search(open, closed, g, f, parent));
      } else {
        var cost := Cost(grid, n);
        if cost.None? {
          RelaxSkip(grid, start, goal, curr, i, Search(open, closed, g, f, parent));
        } else {
          var gn := g[curr] + cost.value;
          if n !in open {
            RelaxNew(grid, start, goal, curr, i, open, closed, g, f, parent, n, gn);
            open := open + [n];
            g := g[n := gn];
            f := f[n := gn + Heuristic(n, goal)];
            parent := parent[n := curr];
          } else if gn < g[n] {
            RelaxBetter(grid, start, goal, curr, i, open, closed, g, f, parent, n, gn);
            g := g[n := gn];
            f := f[n := gn + Heuristic(n, goal)];
            parent := parent[n := curr];
          } else {
            RelaxSkip(grid, start, goal, curr, i, Search(open, closed, g, f, parent));
          }
        }
      }
    }
  }

  /** The parent walk from the goal back to the start, each visited cell
      put in front (`path.unshift`); the start itself has no parent and is
      left out. The result is a route of cost `g[goal]`. */
  method Reconstruct(grid: Map, start: Cell, goal: Cell, closed: set<Cell>,
                     g: map<Cell, nat>, parent: map<Cell, Cell>) returns (path: seq<Cell>)
    requires goal in g && Tree(grid, start, closed, g, parent)
    ensures IsRoute(grid, start, path) && EndOf(start, path) == goal
    ensures RouteCost(grid, path) == g[goal] && start !in path
  {
    path := [];
    var cur := goal;
    while cur in parent
      invariant cur in g
      invariant IsRoute(grid, cur, path) && EndOf(cur, path) == goal
      invariant g[cur] + RouteCost(grid, path) == g[goal] && start !in path
      decreases g[cur]
    {
      RoutePrepend(grid, parent[cur], cur, path);
      path := [cur] + path;
      cur := parent[cur];
    }
  }
}
