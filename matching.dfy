/** Match search on the colour grid: what a run is, and the facts that tie the source's chain
    walk to "every cell in a same-colour run of three is marked". All positions are storage
    coordinates, hidden rows included. */
module Matching {
  import opened Jewels
  import opened Grids

  /** A (row, column) difference, as the source's delta tuples. */
  type Delta = (int, int)

  function Step(p: Position, d: Delta): Position
  {
    Position(p.row + d.0, p.col + d.1)
  }

  function Back(p: Position, d: Delta): (r: Position)
    ensures Step(r, d) == p
  {
    Position(p.row - d.0, p.col - d.1)
  }

  /** `get_delta_of_positions`: the one delta that leads from `p` to `q`. */
  function DeltaOfPositions(p: Position, q: Position): (d: Delta)
    ensures Step(p, d) == q
    ensures forall e: Delta :: Step(p, e) == q ==> e == d
  {
    (q.row - p.row, q.col - p.col)
  }

  /** Row-major order, the order in which the grid is scanned. */
  predicate Before(p: Position, q: Position)
  {
    p.row < q.row || (p.row == q.row && p.col < q.col)
  }

  /** A delta that leads to a later cell in row-major order. */
  predicate Forward(d: Delta)
  {
    d.0 > 0 || (d.0 == 0 && d.1 > 0)
  }

  /** The eight deltas, in the order in which the search tries them. */
  const Deltas: seq<Delta> := [(0, 1), (0, -1), (1, 0), (-1, 0), (1, 1), (1, -1), (-1, 1), (-1, -1)]

  /** The four axes a run can lie along: a row, a column and the two diagonals. */
  const Axes: seq<Delta> := [(0, 1), (1, 0), (1, 1), (1, -1)]

  lemma ForwardDeltasAreAxes(d: Delta)
    requires d in Deltas
    ensures Forward(d) <==> d in Axes
  {
  }

  predicate HasColor(cg: ColorGrid, p: Position, c: Color)
  {
    InGrid(cg, p) && At(cg, p) == c
  }

  /** Three consecutive cells of colour `c` from `p` along `d`. */
  predicate Window(cg: ColorGrid, p: Position, d: Delta, c: Color)
  {
    HasColor(cg, p, c) && HasColor(cg, Step(p, d), c) && HasColor(cg, Step(Step(p, d), d), c)
  }

  /** `p` is the first, second or third cell of a window of its own colour along `d`. */
  predicate OnAxis(cg: ColorGrid, p: Position, d: Delta)
  {
    InGrid(cg, p) &&
    var c := At(cg, p);
    Window(cg, p, d, c) || Window(cg, Back(p, d), d, c) || Window(cg, Back(Back(p, d), d), d, c)
  }

  /** `p` holds a jewel that lies in at least three consecutive cells of its colour along a row,
      a column or a diagonal. */
  predicate InRun(cg: ColorGrid, p: Position)
  {
    InGrid(cg, p) && At(cg, p) != 0 &&
    (OnAxis(cg, p, Axes[0]) || OnAxis(cg, p, Axes[1]) || OnAxis(cg, p, Axes[2]) || OnAxis(cg, p, Axes[3]))
  }

  /** The result `search_for_matches` promises: every jewel in a run is matched, nothing else
      changes (`MarkRunsAt` states it cell by cell). */
  function MarkRuns(g: Grid): (r: Grid)
    ensures |r| == |g| && forall i {:trigger r[i]} :: 0 <= i < |g| ==> |r[i]| == |g[i]|
    ensures forall i, j {:trigger r[i][j]} :: 0 <= i < |g| && 0 <= j < |g[i]| ==>
      r[i][j].color == g[i][j].color && (r[i][j].state == g[i][j].state || r[i][j].state == Matched)
  {
    MarkRows(g, Colors(g), |g|)
  }

  /** The cell at row `i`, column `j` of `g`, matched when it lies in a run of `cg`. */
  function MarkCell(g: Grid, cg: ColorGrid, i: int, j: int): Jewel
    requires 0 <= i < |g| && 0 <= j < |g[i]|
  {
    if InRun(cg, Position(i, j)) then g[i][j].(state := Matched) else g[i][j]
  }

  /** The first `n` rows of `g`, marked. */
  function MarkRows(g: Grid, cg: ColorGrid, n: int): (r: Grid)
    requires 0 <= n <= |g|
    ensures |r| == n && forall i {:trigger r[i]} :: 0 <= i < n ==> |r[i]| == |g[i]|
    ensures forall i, j {:trigger r[i][j]} :: 0 <= i < n && 0 <= j < |g[i]| ==>
      r[i][j].color == g[i][j].color && (r[i][j].state == g[i][j].state || r[i][j].state == Matched)
    decreases n
  {
    if n == 0 then [] else MarkRows(g, cg, n - 1) + [MarkRow(g, cg, n - 1, |g[n - 1]|)]
  }

  /** The first `m` cells of row `i` of `g`, marked. */
  function MarkRow(g: Grid, cg: ColorGrid, i: int, m: int): (r: seq<Jewel>)
    requires 0 <= i < |g| && 0 <= m <= |g[i]|
    ensures |r| == m
    ensures forall j {:trigger r[j]} :: 0 <= j < m ==>
      r[j].color == g[i][j].color && (r[j].state == g[i][j].state || r[j].state == Matched)
    decreases m
  {
    if m == 0 then [] else MarkRow(g, cg, i, m - 1) + [MarkCell(g, cg, i, m - 1)]
  }

  lemma {:induction false} MarkRowAt(g: Grid, cg: ColorGrid, i: int, m: int, j: int)
    requires 0 <= i < |g| && 0 <= j < m <= |g[i]|
    ensures MarkRow(g, cg, i, m)[j] == MarkCell(g, cg, i, j)
    decreases m
  {
    if j < m - 1 {
      MarkRowAt(g, cg, i, m - 1, j);
    }
  }

  lemma {:induction false} MarkRowsAt(g: Grid, cg: ColorGrid, n: int, i: int, j: int)
    requires 0 <= i < n <= |g| && 0 <= j < |g[i]|
    ensures MarkRows(g, cg, n)[i][j] == MarkCell(g, cg, i, j)
    decreases n
  {
    if i < n - 1 {
      MarkRowsAt(g, cg, n - 1, i, j);
    } else {
      MarkRowAt(g, cg, i, |g[i]|, j);
    }
  }

  /** After the search a cell is matched exactly when it was matched before or lies in a run of
      its colour; its colour stays. */
  lemma MarkRunsAt(g: Grid, i: int, j: int)
    requires 0 <= i < |g| && 0 <= j < |g[i]|
    ensures MarkRuns(g)[i][j] == if InRun(Colors(g), Position(i, j)) then g[i][j].(state := Matched) else g[i][j]
    ensures MarkRuns(g)[i][j].state == Matched <==> g[i][j].state == Matched || InRun(Colors(g), Position(i, j))
  {
    MarkRowsAt(g, Colors(g), |g|, i, j);
  }

  /** Searching twice marks nothing new. */
  lemma MarkRunsIdempotent(g: Grid)
    ensures MarkRuns(MarkRuns(g)) == MarkRuns(g)
  {
    var once := MarkRuns(g);
    ColorsKeptBy(once, g);
    forall i, j | 0 <= i < |once| && 0 <= j < |once[i]|
      ensures MarkRuns(once)[i][j] == once[i][j]
    {
      MarkRunsAt(g, i, j);
      MarkRunsAt(once, i, j);
    }
    GridExt(MarkRuns(once), once);
  }

  // ---------------------------------------------------------------- the chain walk

  /** The cells reached from `p` by repeated steps of `d` while the colour stays that of `p`. */
  function Run(cg: ColorGrid, p: Position, d: Delta): (r: seq<Position>)
    requires InGrid(cg, p) && Forward(d)
    ensures |r| >= 1 && r[0] == p
    ensures forall t :: 0 <= t < |r| ==> HasColor(cg, r[t], At(cg, p))
    ensures forall t, u :: 0 <= t && u == t + 1 && u < |r| ==> r[u] == Step(r[t], d)
    ensures forall t :: 0 < t < |r| ==> Before(p, r[t])
    ensures !HasColor(cg, Step(r[|r| - 1], d), At(cg, p))
    decreases |cg| - p.row, |cg[p.row]| - p.col
  {
    var next := Step(p, d);
    if HasColor(cg, next, At(cg, p)) then [p] + Run(cg, next, d) else [p]
  }

  /** What the walk collects from `p` along `d`: a run for a forward delta; for a backward one,
      only `p`, since every candidate lies after `p`. */
  function Chain(cg: ColorGrid, d: Delta, p: Position): (r: seq<Position>)
    requires InGrid(cg, p)
    ensures |r| >= 1 && r[0] == p
  {
    if Forward(d) then Run(cg, p, d) else [p]
  }

  /** The grid with the cells at `ps` set to the matched state. */
  function MarkAll(g: Grid, ps: seq<Position>): (r: Grid)
    ensures |r| == |g| && forall i {:trigger r[i]} :: 0 <= i < |g| ==> |r[i]| == |g[i]|
    ensures forall i, j {:trigger r[i][j]} :: 0 <= i < |g| && 0 <= j < |g[i]| ==>
      r[i][j] == if Position(i, j) in ps then g[i][j].(state := Matched) else g[i][j]
  {
    seq(|g|, i requires 0 <= i < |g| =>
      seq(|g[i]|, j requires 0 <= j < |g[i]| =>
        if Position(i, j) in ps then g[i][j].(state := Matched) else g[i][j]))
  }

  /** A chain is marked only when it is at least `MinMatchLength` long. */
  function MarkChain(g: Grid, ch: seq<Position>): Grid
  {
    if |ch| >= MinMatchLength then MarkAll(g, ch) else g
  }

  /** The walks from `p` along each delta of `ds` in turn. */
  function MarkChains(g: Grid, cg: ColorGrid, p: Position, ds: seq<Delta>): Grid
    requires InGrid(cg, p)
    decreases |ds|
  {
    if ds == [] then g
    else MarkChain(MarkChains(g, cg, p, ds[..|ds| - 1]), Chain(cg, ds[|ds| - 1], p))
  }

  /** The eight walks from `p`, in the source's order. */
  function MarkFrom(g: Grid, cg: ColorGrid, p: Position): Grid
    requires InGrid(cg, p)
  {
    MarkChains(g, cg, p, Deltas)
  }

  /** `equals_all`: every value of the list is `v`. */
  function EqualsAll(values: seq<Delta>, v: Delta): (r: bool)
    ensures r <==> forall x :: 0 <= x < |values| ==> values[x] == v
  {
    if values == [] then true else values[0] == v && EqualsAll(values[1..], v)
  }

  /** One more walk, along `d`, on top of the walks along `ds`. */
  lemma MarkChainsSnoc(g: Grid, cg: ColorGrid, p: Position, ds: seq<Delta>, n: int)
    requires InGrid(cg, p) && 0 <= n < |ds|
    ensures MarkChains(g, cg, p, ds[..n + 1]) == MarkChain(MarkChains(g, cg, p, ds[..n]), Chain(cg, ds[n], p))
  {
    assert ds[..n + 1][..n] == ds[..n];
  }

  /** The walks along every delta of `ds`, taken as a whole prefix. */
  lemma MarkChainsWhole(g: Grid, cg: ColorGrid, p: Position, ds: seq<Delta>)
    requires InGrid(cg, p)
    ensures MarkChains(g, cg, p, ds[..|ds|]) == MarkChains(g, cg, p, ds)
  {
    assert ds[..|ds|] == ds;
  }

  /** The cell after the `k`-th of a run is listed among the later cells of the run's colour. */
  lemma NextInRest(cg: ColorGrid, p: Position, d: Delta, rest: seq<Position>, k: int)
    requires SortedAfter(cg, p, rest) && Forward(d) && 0 <= k && k + 1 < |Run(cg, p, d)|
    ensures Run(cg, p, d)[k + 1] in rest
  {
    var q := Run(cg, p, d)[k + 1];
    assert HasColor(cg, q, At(cg, p)) && Before(p, q);
    assert Position(q.row, q.col) == q;
  }

  /** What the walk of the search collects from `rest` after `prev`: each listed cell one `d`
      past the last collected cell, in list order. */
  function Walk(d: Delta, prev: Position, rest: seq<Position>): (w: seq<Position>)
    ensures |w| <= |rest|
    ensures forall t :: 0 <= t < |w| ==> w[t] in rest
    decreases |rest|
  {
    if rest == [] then []
    else if Step(prev, d) == rest[0] then [rest[0]] + Walk(d, rest[0], rest[1..])
    else Walk(d, prev, rest[1..])
  }

  /** `tail` is the sequence of cells reached from `prev` by repeated steps along `d`. */
  ghost predicate Chained(prev: Position, d: Delta, tail: seq<Position>)
  {
    (|tail| > 0 ==> tail[0] == Step(prev, d)) &&
    forall t, u :: 0 <= t && u == t + 1 && u < |tail| ==> tail[u] == Step(tail[t], d)
  }

  ghost function Last(prev: Position, tail: seq<Position>): Position
  {
    if tail == [] then prev else tail[|tail| - 1]
  }

  /** Every cell reached by forward steps comes after the starting cell. */
  lemma {:induction false} ChainedBefore(prev: Position, d: Delta, tail: seq<Position>)
    requires Forward(d) && Chained(prev, d, tail)
    ensures forall t :: 0 <= t < |tail| ==> Before(prev, tail[t])
    decreases |tail|
  {
    if tail != [] {
      assert tail[0] == Step(prev, d);
      assert Chained(tail[0], d, tail[1..]);
      ChainedBefore(tail[0], d, tail[1..]);
    }
  }

  /** A walk whose next cell is never listed collects nothing. */
  lemma {:induction false} WalkNone(d: Delta, prev: Position, rest: seq<Position>)
    requires Step(prev, d) !in rest
    ensures Walk(d, prev, rest) == []
    decreases |rest|
  {
    if rest != [] {
      WalkNone(d, prev, rest[1..]);
    }
  }

  /** Along a forward delta, a walk over a sorted list collects exactly a chain of steps from
      `prev` all of whose cells are listed and whose next cell is not. */
  lemma {:induction false} WalkTail(d: Delta, prev: Position, rest: seq<Position>, tail: seq<Position>)
    requires Forward(d) && StrictlySorted(rest) && Chained(prev, d, tail)
    requires forall t :: 0 <= t < |tail| ==> tail[t] in rest
    requires Step(Last(prev, tail), d) !in rest
    ensures Walk(d, prev, rest) == tail
    decreases |rest|
  {
    if tail == [] {
      WalkNone(d, prev, rest);
    } else {
      assert tail[0] in rest && tail[0] == Step(prev, d);
      ChainedBefore(tail[0], d, tail[1..]);
      if rest[0] == tail[0] {
        assert Chained(tail[0], d, tail[1..]);
        assert Last(tail[0], tail[1..]) == Last(prev, tail);
        WalkTail(d, tail[0], rest[1..], tail[1..]);
        assert tail == [rest[0]] + tail[1..];
      } else {
        assert forall t :: 0 <= t < |tail| ==> tail[t] in rest[1..];
        WalkTail(d, prev, rest[1..], tail);
      }
    }
  }

  /** Along a backward delta the walk collects nothing: every listed cell lies after `p`. */
  lemma {:induction false} WalkBackward(cg: ColorGrid, p: Position, d: Delta, all: seq<Position>, i: int)
    requires SortedAfter(cg, p, all) && !Forward(d) && 0 <= i <= |all|
    ensures Walk(d, p, all[i..]) == []
    decreases |all| - i
  {
    if i < |all| {
      assert all[i..][1..] == all[i + 1..];
      assert Before(p, all[i]);
      WalkBackward(cg, p, d, all, i + 1);
    }
  }

  /** Along a forward delta the walk collects the run after `p`. */
  lemma WalkForward(cg: ColorGrid, p: Position, d: Delta, all: seq<Position>)
    requires SortedAfter(cg, p, all) && Forward(d)
    ensures [p] + Walk(d, p, all) == Run(cg, p, d)
  {
    var r := Run(cg, p, d);
    assert Chained(p, d, r[1..]);
    forall t | 0 <= t < |r| - 1
      ensures r[1..][t] in all
    {
      NextInRest(cg, p, d, all, t);
    }
    assert Last(p, r[1..]) == r[|r| - 1];
    WalkTail(d, p, all, r[1..]);
    assert r == [p] + r[1..];
  }

  /** The walk from `p` over the later cells of its colour collects exactly the chain. */
  lemma WalkIsChain(cg: ColorGrid, p: Position, d: Delta, all: seq<Position>)
    requires SortedAfter(cg, p, all)
    ensures [p] + Walk(d, p, all) == Chain(cg, d, p)
  {
    assert all[0..] == all;
    if Forward(d) {
      WalkForward(cg, p, d, all);
    } else {
      WalkBackward(cg, p, d, all, 0);
    }
  }

  /** Marking one more listed cell. */
  lemma MarkAllStep(g: Grid, ps: seq<Position>, t: int)
    requires 0 <= t < |ps| && InGrid(g, ps[t])
    ensures InGrid(MarkAll(g, ps[..t]), ps[t])
    ensures MarkAll(g, ps[..t + 1]) ==
      SetAt(MarkAll(g, ps[..t]), ps[t], MarkAll(g, ps[..t])[ps[t].row][ps[t].col].(state := Matched))
  {
    assert ps[..t + 1] == ps[..t] + [ps[t]];
    GridExt(MarkAll(g, ps[..t + 1]),
      SetAt(MarkAll(g, ps[..t]), ps[t], MarkAll(g, ps[..t])[ps[t].row][ps[t].col].(state := Matched)));
  }

  /** Marking no cell leaves the grid as it was. */
  lemma MarkNone(g: Grid)
    ensures MarkAll(g, []) == g
  {
    GridExt(MarkAll(g, []), g);
  }

  /** Marking changes states only. */
  lemma MarkAllColors(g: Grid, ps: seq<Position>)
    ensures Colors(MarkAll(g, ps)) == Colors(g)
  {
    ColorsKeptBy(MarkAll(g, ps), g);
  }

  // ---------------------------------------------------------------- lists of positions

  predicate StrictlySorted(s: seq<Position>)
  {
    forall x, y :: 0 <= x < y < |s| ==> Before(s[x], s[y])
  }

  /** `ps` lists, in row-major order, exactly the cells of colour `c` that come before `b`. */
  predicate ListedBefore(cg: ColorGrid, c: Color, ps: seq<Position>, b: Position)
  {
    StrictlySorted(ps) &&
    (forall x :: 0 <= x < |ps| ==> HasColor(cg, ps[x], c) && Before(ps[x], b)) &&
    (forall i, j :: 0 <= i < |cg| && 0 <= j < |cg[i]| && cg[i][j] == c && Before(Position(i, j), b) ==>
      Position(i, j) in ps)
  }

  /** `ps` lists every cell of colour `c`, in row-major order: what `get_all_jewels_of` returns. */
  predicate ColorList(cg: ColorGrid, c: Color, ps: seq<Position>)
  {
    ListedBefore(cg, c, ps, Position(|cg|, 0))
  }

  /** `rest` lists, in row-major order, every cell of `start`'s colour that comes after it. */
  predicate SortedAfter(cg: ColorGrid, start: Position, rest: seq<Position>)
  {
    InGrid(cg, start) &&
    StrictlySorted(rest) &&
    (forall x :: 0 <= x < |rest| ==> HasColor(cg, rest[x], At(cg, start)) && Before(start, rest[x])) &&
    (forall i, j :: 0 <= i < |cg| && 0 <= j < |cg[i]| && cg[i][j] == At(cg, start) && Before(start, Position(i, j)) ==>
      Position(i, j) in rest)
  }

  lemma ColorListInGrid(cg: ColorGrid, c: Color, ps: seq<Position>, b: Position)
    requires forall x :: 0 <= x < |ps| ==> HasColor(cg, ps[x], c) && Before(ps[x], b)
    ensures forall x :: 0 <= x < |ps| ==> InGrid(cg, ps[x]) && At(cg, ps[x]) == c
  {
  }

  /** The scan of one more cell keeps the list exact. */
  lemma ListStep(cg: ColorGrid, c: Color, ps: seq<Position>, qs: seq<Position>, i: int, j: int)
    requires 0 <= i < |cg| && 0 <= j < |cg[i]| && ListedBefore(cg, c, ps, Position(i, j))
    requires qs == if cg[i][j] == c then ps + [Position(i, j)] else ps
    ensures ListedBefore(cg, c, qs, Position(i, j + 1))
  {
  }

  /** A list exact up to the end of row `i` is exact up to the start of row `i + 1`. */
  lemma ListRowEnd(cg: ColorGrid, c: Color, ps: seq<Position>, i: int)
    requires 0 <= i < |cg| && ListedBefore(cg, c, ps, Position(i, |cg[i]|))
    ensures ListedBefore(cg, c, ps, Position(i + 1, 0))
  {
  }

  /** The cells of colour `c` before `(i, j)`, in row-major order: the list the scan of
      `get_all_jewels_of` has built when it reaches `(i, j)`. */
  function CellsOf(cg: ColorGrid, c: Color, i: int, j: int): seq<Position>
    requires 0 <= i <= |cg| && 0 <= j && (i < |cg| ==> j <= |cg[i]|) && (i == |cg| ==> j == 0)
    decreases i, j
  {
    if j > 0 then CellsOf(cg, c, i, j - 1) + (if cg[i][j - 1] == c then [Position(i, j - 1)] else [])
    else if i > 0 then CellsOf(cg, c, i - 1, |cg[i - 1]|)
    else []
  }

  /** The scan's list holds exactly the cells of colour `c` before `(i, j)`, in order. */
  lemma {:induction false} CellsOfListed(cg: ColorGrid, c: Color, i: int, j: int)
    requires 0 <= i <= |cg| && 0 <= j && (i < |cg| ==> j <= |cg[i]|) && (i == |cg| ==> j == 0)
    ensures ListedBefore(cg, c, CellsOf(cg, c, i, j), Position(i, j))
    decreases i, j
  {
    if j > 0 {
      var ps := CellsOf(cg, c, i, j - 1);
      var qs := CellsOf(cg, c, i, j);
      CellsOfListed(cg, c, i, j - 1);
      assert ps + [] == ps;
      ListStep(cg, c, ps, qs, i, j - 1);
    } else if i > 0 {
      CellsOfListed(cg, c, i - 1, |cg[i - 1]|);
      ListRowEnd(cg, c, CellsOf(cg, c, i - 1, |cg[i - 1]|), i - 1);
    }
  }

  /** Every tail of a colour list is what the walk from the element before it expects. */
  lemma ColorListTail(cg: ColorGrid, c: Color, ps: seq<Position>, k: int)
    requires ColorList(cg, c, ps) && 0 <= k < |ps|
    ensures SortedAfter(cg, ps[k], ps[k + 1..])
  {
    var rest := ps[k + 1..];
    forall i, j | 0 <= i < |cg| && 0 <= j < |cg[i]| && cg[i][j] == At(cg, ps[k]) && Before(ps[k], Position(i, j))
      ensures Position(i, j) in rest
    {
      var q := Position(i, j);
      assert q in ps;
      var x :| 0 <= x < |ps| && ps[x] == q;
      assert x > k;
      assert rest[x - k - 1] == q;
    }
  }

  // ---------------------------------------------------------------- soundness and completeness

  /** `g` differs from `g0` at most by matched states on cells that lie in a run of `g0`. */
  ghost predicate Sound(g0: Grid, g: Grid)
  {
    |g| == |g0| && (forall i :: 0 <= i < |g0| ==> |g[i]| == |g0[i]|) &&
    forall i, j :: 0 <= i < |g0| && 0 <= j < |g0[i]| ==>
      g[i][j].color == g0[i][j].color &&
      (g[i][j].state == g0[i][j].state || (g[i][j].state == Matched && InRun(Colors(g0), Position(i, j))))
  }

  /** No matched cell of `g` is unmarked in `g2`. */
  ghost predicate Monotone(g: Grid, g2: Grid)
  {
    |g2| == |g| && (forall i :: 0 <= i < |g| ==> |g2[i]| == |g[i]|) &&
    forall i, j :: 0 <= i < |g| && 0 <= j < |g[i]| && g[i][j].state == Matched ==> g2[i][j].state == Matched
  }

  ghost predicate MarkedWindow(g: Grid, p: Position, d: Delta)
  {
    Marked(g, p) && Marked(g, Step(p, d)) && Marked(g, Step(Step(p, d), d))
  }

  /** Every window of colour `c` starting at `q` is marked in `g`. */
  ghost predicate CoversAt(g: Grid, cg: ColorGrid, q: Position)
  {
    forall a, c :: 0 <= a < |Axes| && Window(cg, q, Axes[a], c) ==> MarkedWindow(g, q, Axes[a])
  }

  lemma SoundStart(g: Grid)
    ensures Sound(g, g)
  {
  }

  lemma MonotoneTrans(g1: Grid, g2: Grid, g3: Grid)
    requires Monotone(g1, g2) && Monotone(g2, g3)
    ensures Monotone(g1, g3)
  {
  }

  lemma MonotoneCovers(g: Grid, g2: Grid, cg: ColorGrid)
    requires Monotone(g, g2)
    ensures forall q :: CoversAt(g, cg, q) ==> CoversAt(g2, cg, q)
  {
    forall q, a, c | CoversAt(g, cg, q) && 0 <= a < |Axes| && Window(cg, q, Axes[a], c)
      ensures MarkedWindow(g2, q, Axes[a])
    {
      assert MarkedWindow(g, q, Axes[a]);
    }
  }

  /** Each cell of a run of three or more lies on a window along the run's direction. */
  lemma RunOnAxis(cg: ColorGrid, p: Position, d: Delta, t: int)
    requires InGrid(cg, p) && Forward(d)
    requires |Run(cg, p, d)| >= MinMatchLength && 0 <= t < |Run(cg, p, d)|
    ensures OnAxis(cg, Run(cg, p, d)[t], d)
  {
    var r := Run(cg, p, d);
    var c := At(cg, p);
    if t == 0 {
      assert r[1] == Step(r[0], d);
      assert r[2] == Step(r[1], d);
      assert Window(cg, r[0], d, c);
    } else if t == 1 {
      assert r[1] == Step(r[0], d);
      assert r[2] == Step(r[1], d);
      assert Back(r[1], d) == r[0];
      assert Window(cg, r[0], d, c);
    } else {
      assert r[t - 1] == Step(r[t - 2], d);
      assert r[t] == Step(r[t - 1], d);
      assert Back(Back(r[t], d), d) == r[t - 2];
      assert Window(cg, r[t - 2], d, c);
    }
  }

  /** A window starting at `p` along `d` lies within the run from `p`. */
  lemma WindowInRun(cg: ColorGrid, p: Position, d: Delta, c: Color)
    requires Forward(d) && Window(cg, p, d, c)
    ensures |Run(cg, p, d)| >= MinMatchLength
    ensures Run(cg, p, d)[1] == Step(p, d) && Run(cg, p, d)[2] == Step(Step(p, d), d)
  {
    var r := Run(cg, p, d);
    assert |r| >= 2;
    assert r[1] == Step(r[0], d);
    assert |r| >= 3;
    assert r[2] == Step(r[1], d);
  }

  /** Marking cells that lie in runs keeps the grid sound and unmarks nothing. */
  lemma MarkAllSound(g0: Grid, g: Grid, ps: seq<Position>)
    requires Sound(g0, g)
    requires forall x :: 0 <= x < |ps| && InGrid(g0, ps[x]) ==> InRun(Colors(g0), ps[x])
    ensures Sound(g0, MarkAll(g, ps)) && Monotone(g, MarkAll(g, ps))
  {
    var r := MarkAll(g, ps);
    forall i, j | 0 <= i < |g0| && 0 <= j < |g0[i]| && Position(i, j) in ps
      ensures InRun(Colors(g0), Position(i, j))
    {
      var x :| 0 <= x < |ps| && ps[x] == Position(i, j);
    }
  }

  /** Every cell of a marked chain lies in a run. */
  lemma ChainInRuns(cg: ColorGrid, p: Position, d: Delta)
    requires InGrid(cg, p) && At(cg, p) != 0 && d in Deltas
    requires |Chain(cg, d, p)| >= MinMatchLength
    ensures forall x :: 0 <= x < |Chain(cg, d, p)| ==> InRun(cg, Chain(cg, d, p)[x])
  {
    ForwardDeltasAreAxes(d);
    forall x | 0 <= x < |Chain(cg, d, p)|
      ensures InRun(cg, Chain(cg, d, p)[x])
    {
      RunOnAxis(cg, p, d, x);
    }
  }

  /** One walk keeps the grid sound and unmarks nothing. */
  lemma ChainMarkSound(g0: Grid, g: Grid, p: Position, d: Delta)
    requires Sound(g0, g) && InGrid(g0, p) && g0[p.row][p.col].color != 0 && d in Deltas
    ensures Sound(g0, MarkChain(g, Chain(Colors(g0), d, p)))
    ensures Monotone(g, MarkChain(g, Chain(Colors(g0), d, p)))
  {
    var ch := Chain(Colors(g0), d, p);
    if |ch| >= MinMatchLength {
      ChainInRuns(Colors(g0), p, d);
      MarkAllSound(g0, g, ch);
    }
  }

  /** A walk along a forward delta marks the window it starts, if there is one. */
  lemma ChainMarksWindow(g: Grid, cg: ColorGrid, p: Position, d: Delta, c: Color)
    requires Forward(d) && Window(cg, p, d, c)
    requires |g| == |cg| && forall i :: 0 <= i < |cg| ==> |g[i]| == |cg[i]|
    ensures MarkedWindow(MarkChain(g, Chain(cg, d, p)), p, d)
  {
    WindowInRun(cg, p, d, c);
    var ch := Chain(cg, d, p);
    assert ch[0] == p && ch[1] == Step(p, d) && ch[2] == Step(Step(p, d), d);
    MarkAllMarks(g, ch, 0);
    MarkAllMarks(g, ch, 1);
    MarkAllMarks(g, ch, 2);
  }

  lemma MarkAllMarks(g: Grid, ps: seq<Position>, x: int)
    requires 0 <= x < |ps| && InGrid(g, ps[x])
    ensures Marked(MarkAll(g, ps), ps[x])
  {
    var q := ps[x];
    assert MarkAll(g, ps)[q.row][q.col] == g[q.row][q.col].(state := Matched);
  }

  lemma MonotoneWindow(g: Grid, g2: Grid, p: Position, d: Delta)
    requires Monotone(g, g2) && MarkedWindow(g, p, d)
    ensures MarkedWindow(g2, p, d)
  {
  }

  /** Marking a chain unmarks nothing. */
  lemma MarkChainMonotone(g: Grid, ch: seq<Position>)
    ensures Monotone(g, MarkChain(g, ch))
  {
  }

  /** The walks along `ds` keep the grid sound and unmark nothing. */
  lemma {:induction false} MarkChainsSound(g0: Grid, g: Grid, p: Position, ds: seq<Delta>)
    requires Sound(g0, g) && InGrid(g0, p) && g0[p.row][p.col].color != 0
    requires forall x :: 0 <= x < |ds| ==> ds[x] in Deltas
    ensures Sound(g0, MarkChains(g, Colors(g0), p, ds))
    ensures Monotone(g, MarkChains(g, Colors(g0), p, ds))
    decreases |ds|
  {
    if ds != [] {
      var init := ds[..|ds| - 1];
      MarkChainsSound(g0, g, p, init);
      var prev := MarkChains(g, Colors(g0), p, init);
      ChainMarkSound(g0, prev, p, ds[|ds| - 1]);
      MonotoneTrans(g, prev, MarkChains(g, Colors(g0), p, ds));
    } else {
      SoundStart(g);
    }
  }

  /** The walks along `ds` keep the shape of the grid. */
  lemma {:induction false} MarkChainsShape(g: Grid, cg: ColorGrid, p: Position, ds: seq<Delta>)
    requires InGrid(cg, p)
    requires |g| == |cg| && forall i :: 0 <= i < |cg| ==> |g[i]| == |cg[i]|
    ensures |MarkChains(g, cg, p, ds)| == |cg|
    ensures forall i :: 0 <= i < |cg| ==> |MarkChains(g, cg, p, ds)[i]| == |cg[i]|
    decreases |ds|
  {
    if ds != [] {
      MarkChainsShape(g, cg, p, ds[..|ds| - 1]);
    }
  }

  /** One more walk, along `last`, adds its own window and keeps those marked before. */
  lemma WindowsStep(prev: Grid, cg: ColorGrid, p: Position, init: seq<Delta>, last: Delta)
    requires InGrid(cg, p)
    requires |prev| == |cg| && forall i :: 0 <= i < |cg| ==> |prev[i]| == |cg[i]|
    requires forall a, c :: 0 <= a < |Axes| && Axes[a] in init && Window(cg, p, Axes[a], c) ==>
      MarkedWindow(prev, p, Axes[a])
    ensures forall a, c :: 0 <= a < |Axes| && Axes[a] in init + [last] && Window(cg, p, Axes[a], c) ==>
      MarkedWindow(MarkChain(prev, Chain(cg, last, p)), p, Axes[a])
  {
    var r := MarkChain(prev, Chain(cg, last, p));
    MarkChainMonotone(prev, Chain(cg, last, p));
    forall a, c | 0 <= a < |Axes| && Axes[a] in init + [last] && Window(cg, p, Axes[a], c)
      ensures MarkedWindow(r, p, Axes[a])
    {
      if Axes[a] == last {
        ChainMarksWindow(prev, cg, p, last, c);
      } else {
        MonotoneWindow(prev, r, p, Axes[a]);
      }
    }
  }

  /** The walks along `ds` mark every window that starts at `p` along an axis in `ds`. */
  lemma {:induction false} MarkChainsWindows(g: Grid, cg: ColorGrid, p: Position, ds: seq<Delta>)
    requires InGrid(cg, p)
    requires |g| == |cg| && forall i :: 0 <= i < |cg| ==> |g[i]| == |cg[i]|
    ensures forall a, c :: 0 <= a < |Axes| && Axes[a] in ds && Window(cg, p, Axes[a], c) ==>
      MarkedWindow(MarkChains(g, cg, p, ds), p, Axes[a])
    decreases |ds|
  {
    if ds != [] {
      var init := ds[..|ds| - 1];
      MarkChainsWindows(g, cg, p, init);
      MarkChainsShape(g, cg, p, init);
      assert ds == init + [ds[|ds| - 1]];
      WindowsStep(MarkChains(g, cg, p, init), cg, p, init, ds[|ds| - 1]);
    }
  }

  /** The eight walks from one start keep the grid sound, unmark nothing, and mark every
      window that starts there. */
  lemma MarkFromFacts(g0: Grid, g: Grid, p: Position)
    requires Sound(g0, g) && InGrid(g0, p) && g0[p.row][p.col].color != 0
    ensures Sound(g0, MarkFrom(g, Colors(g0), p))
    ensures Monotone(g, MarkFrom(g, Colors(g0), p))
    ensures CoversAt(MarkFrom(g, Colors(g0), p), Colors(g0), p)
  {
    MarkChainsSound(g0, g, p, Deltas);
    MarkChainsWindows(g, Colors(g0), p, Deltas);
    assert forall a :: 0 <= a < |Axes| ==> Axes[a] in Deltas;
  }

  /** The last cell of a colour list starts no window: every window continues to a later cell. */
  lemma LastCovered(g: Grid, cg: ColorGrid, c: Color, ps: seq<Position>)
    requires ColorList(cg, c, ps) && |ps| >= 1 && CoversAll(g, cg, ps, |ps| - 1)
    ensures CoversAll(g, cg, ps, |ps|)
  {
    var q := ps[|ps| - 1];
    forall a, c' | 0 <= a < |Axes| && Window(cg, q, Axes[a], c')
      ensures false
    {
    }
  }

  /** The first `k` listed cells are covered. */
  ghost predicate CoversAll(g: Grid, cg: ColorGrid, ps: seq<Position>, k: int)
    requires 0 <= k <= |ps|
  {
    forall x :: 0 <= x < k ==> CoversAt(g, cg, ps[x])
  }

  /** Covering survives further marking, and one more listed cell is now covered. */
  lemma CoversStep(g: Grid, g2: Grid, cg: ColorGrid, c: int, ps: seq<Position>, k: int)
    requires 0 <= k < |ps| && Monotone(g, g2)
    requires CoveredBelow(g, cg, c) && CoversAll(g, cg, ps, k) && CoversAt(g2, cg, ps[k])
    ensures CoveredBelow(g2, cg, c) && CoversAll(g2, cg, ps, k + 1)
  {
    MonotoneCovers(g, g2, cg);
  }

  ghost predicate CoveredBelow(g: Grid, cg: ColorGrid, c: int)
  {
    forall i, j :: 0 <= i < |cg| && 0 <= j < |cg[i]| && 1 <= cg[i][j] < c ==> CoversAt(g, cg, Position(i, j))
  }

  /** Once every listed cell of colour `c` is covered, the colours up to `c` are. */
  lemma ColorCovered(g: Grid, cg: ColorGrid, c: Color, ps: seq<Position>)
    requires ColorList(cg, c, ps) && CoveredBelow(g, cg, c)
    requires CoversAll(g, cg, ps, |ps|)
    ensures CoveredBelow(g, cg, c + 1)
  {
    forall i, j | 0 <= i < |cg| && 0 <= j < |cg[i]| && cg[i][j] == c
      ensures CoversAt(g, cg, Position(i, j))
    {
      assert Before(Position(i, j), Position(|cg|, 0));
      var x :| 0 <= x < |ps| && ps[x] == Position(i, j);
    }
  }

  /** A cell on an axis window is matched once every window start is covered. */
  lemma AxisCovered(g: Grid, cg: ColorGrid, p: Position, d: Delta)
    requires d in Axes && OnAxis(cg, p, d)
    requires forall i, j :: 0 <= i < |cg| && 0 <= j < |cg[i]| && cg[i][j] != 0 ==> CoversAt(g, cg, Position(i, j))
    requires At(cg, p) != 0
    ensures Marked(g, p)
  {
    var c := At(cg, p);
    var a :| 0 <= a < |Axes| && Axes[a] == d;
    var q := if Window(cg, p, d, c) then p else if Window(cg, Back(p, d), d, c) then Back(p, d) else Back(Back(p, d), d);
    assert Window(cg, q, d, c);
    assert CoversAt(g, cg, Position(q.row, q.col));
    assert MarkedWindow(g, q, d);
    assert p == q || p == Step(q, d) || p == Step(Step(q, d), d);
  }

  /** Once every start has been walked, every cell in a run is matched. */
  lemma RunsCovered(g: Grid, cg: ColorGrid)
    requires forall i, j :: 0 <= i < |cg| && 0 <= j < |cg[i]| && cg[i][j] != 0 ==> CoversAt(g, cg, Position(i, j))
    ensures forall i, j :: 0 <= i < |cg| && 0 <= j < |cg[i]| && InRun(cg, Position(i, j)) ==> Marked(g, Position(i, j))
  {
    forall i, j | 0 <= i < |cg| && 0 <= j < |cg[i]| && InRun(cg, Position(i, j))
      ensures Marked(g, Position(i, j))
    {
      var p := Position(i, j);
      if OnAxis(cg, p, Axes[0]) {
        AxisCovered(g, cg, p, Axes[0]);
      } else if OnAxis(cg, p, Axes[1]) {
        AxisCovered(g, cg, p, Axes[1]);
      } else if OnAxis(cg, p, Axes[2]) {
        AxisCovered(g, cg, p, Axes[2]);
      } else {
        AxisCovered(g, cg, p, Axes[3]);
      }
    }
  }

  /** A sound grid in which every run is matched is exactly `MarkRuns` of the start. */
  lemma SoundAndCompleteIsMarkRuns(g0: Grid, g: Grid)
    requires Sound(g0, g)
    requires forall i, j :: 0 <= i < |g0| && 0 <= j < |g0[i]| && InRun(Colors(g0), Position(i, j)) ==>
      Marked(g, Position(i, j))
    ensures g == MarkRuns(g0)
  {
    var m := MarkRuns(g0);
    forall i, j | 0 <= i < |g| && 0 <= j < |g[i]|
      ensures g[i][j] == m[i][j]
    {
      MarkRunsAt(g0, i, j);
      if !InRun(Colors(g0), Position(i, j)) {
        assert g[i][j].state == g0[i][j].state;
      }
    }
    GridExt(g, m);
  }
}
