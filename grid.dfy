/** The board as a value: rows of jewels in storage coordinates, hidden rows first. */
module Grids {
  import opened Jewels

  type Grid = seq<seq<Jewel>>
  type ColorGrid = seq<seq<Color>>

  /** A cell address, `Position(row, col)` in the source. */
  datatype Position = Position(row: int, col: int)

  function Width<T>(g: seq<seq<T>>): nat
  {
    if |g| == 0 then 0 else |g[0]|
  }

  /** Every row has the same length. */
  predicate Rect<T>(g: seq<seq<T>>)
  {
    forall i :: 0 <= i < |g| ==> |g[i]| == Width(g)
  }

  predicate Shaped<T>(g: seq<seq<T>>, h: int, w: int)
  {
    |g| == h && forall i :: 0 <= i < |g| ==> |g[i]| == w
  }

  predicate InGrid<T>(g: seq<seq<T>>, p: Position)
  {
    0 <= p.row < |g| && 0 <= p.col < |g[p.row]|
  }

  function At<T>(g: seq<seq<T>>, p: Position): T
    requires InGrid(g, p)
  {
    g[p.row][p.col]
  }

  /** Column `j`, top to bottom. */
  function Column<T>(g: seq<seq<T>>, j: int): (c: seq<T>)
    requires 0 <= j
    requires forall i :: 0 <= i < |g| ==> j < |g[i]|
    ensures |c| == |g|
    ensures forall i :: 0 <= i < |g| ==> c[i] == g[i][j]
  {
    seq(|g|, i requires 0 <= i < |g| => g[i][j])
  }

  /** The colour of every cell. */
  function Colors(g: Grid): (cg: ColorGrid)
    ensures |cg| == |g|
    ensures forall i {:trigger cg[i]} :: 0 <= i < |g| ==> |cg[i]| == |g[i]|
    ensures forall i, j {:trigger cg[i][j]} :: 0 <= i < |g| && 0 <= j < |g[i]| ==> cg[i][j] == g[i][j].color
  {
    seq(|g|, i requires 0 <= i < |g| => seq(|g[i]|, j requires 0 <= j < |g[i]| => g[i][j].color))
  }

  /** Two grids of the same shape that agree cell by cell are equal. */
  lemma GridExt<T>(a: seq<seq<T>>, b: seq<seq<T>>)
    requires |a| == |b|
    requires forall i :: 0 <= i < |a| ==> |a[i]| == |b[i]|
    requires forall i, j :: 0 <= i < |a| && 0 <= j < |a[i]| ==> a[i][j] == b[i][j]
    ensures a == b
  {
    forall i | 0 <= i < |a|
      ensures a[i] == b[i]
    {
      assert forall j :: 0 <= j < |a[i]| ==> a[i][j] == b[i][j];
    }
  }

  /** Writing a jewel whose colour equals the old one keeps the colour grid. */
  lemma ColorsKeptBy(a: Grid, b: Grid)
    requires |a| == |b|
    requires forall i :: 0 <= i < |a| ==> |a[i]| == |b[i]|
    requires forall i, j :: 0 <= i < |a| && 0 <= j < |a[i]| ==> a[i][j].color == b[i][j].color
    ensures Colors(a) == Colors(b)
  {
    GridExt(Colors(a), Colors(b));
  }

  /** The grid with one cell (storage coordinates) replaced. */
  function SetAt(g: Grid, p: Position, x: Jewel): (r: Grid)
    requires InGrid(g, p)
    ensures |r| == |g| && forall i {:trigger r[i]} :: 0 <= i < |g| ==> |r[i]| == |g[i]|
    ensures forall i, j {:trigger r[i][j]} :: 0 <= i < |g| && 0 <= j < |g[i]| ==>
      r[i][j] == if i == p.row && j == p.col then x else g[i][j]
  {
    g[p.row := g[p.row][p.col := x]]
  }

  /** The grid with the cells of column `c` from storage row `s` down replaced by `js`. */
  function WithFaller(g: Grid, s: int, c: int, js: seq<Jewel>): (r: Grid)
    ensures |r| == |g| && forall i {:trigger r[i]} :: 0 <= i < |g| ==> |r[i]| == |g[i]|
    ensures forall i, j {:trigger r[i][j]} :: 0 <= i < |g| && 0 <= j < |g[i]| ==>
      r[i][j] == if j == c && s <= i < s + |js| then js[i - s] else g[i][j]
    decreases |js|
  {
    if js == [] then g
    else
      var r := WithFaller(g, s, c, js[..|js| - 1]);
      var i := s + |js| - 1;
      if 0 <= i < |r| && 0 <= c < |r[i]| then r[i := r[i][c := js[|js| - 1]]] else r
  }

  /** `r` is `g` with the cells of column `c` in rows `lo .. hi - 1` replaced by the jewels of
      `js`, whose first jewel belongs at row `s`: a column write part-way done. */
  ghost predicate Painted(r: Grid, g: Grid, c: int, lo: int, hi: int, s: int, js: seq<Jewel>)
  {
    s <= lo <= hi <= s + |js| &&
    |r| == |g| && (forall i :: 0 <= i < |g| ==> |r[i]| == |g[i]|) &&
    forall i, j :: 0 <= i < |g| && 0 <= j < |g[i]| ==>
      r[i][j] == if j == c && lo <= i < hi then js[i - s] else g[i][j]
  }

  lemma PaintedNone(g: Grid, c: int, lo: int, s: int, js: seq<Jewel>)
    requires s <= lo <= s + |js|
    ensures Painted(g, g, c, lo, lo, s, js)
  {
  }

  /** Writing the next jewel just above the written rows extends them upwards. */
  lemma PaintedAbove(r: Grid, g: Grid, c: int, lo: int, hi: int, s: int, js: seq<Jewel>, p: Position, x: Jewel)
    requires Painted(r, g, c, lo, hi, s, js) && s < lo
    requires p == Position(lo - 1, c) && InGrid(r, p) && x == js[lo - 1 - s]
    ensures Painted(SetAt(r, p, x), g, c, lo - 1, hi, s, js)
  {
  }

  /** Writing the next jewel just below the written rows extends them downwards. */
  lemma PaintedBelow(r: Grid, g: Grid, c: int, lo: int, hi: int, s: int, js: seq<Jewel>, p: Position, x: Jewel)
    requires Painted(r, g, c, lo, hi, s, js) && hi < s + |js|
    requires p == Position(hi, c) && InGrid(r, p) && x == js[hi - s]
    ensures Painted(SetAt(r, p, x), g, c, lo, hi + 1, s, js)
  {
  }

  /** Once every jewel is written, the grid is `g` with the faller placed. */
  lemma PaintedAll(r: Grid, g: Grid, c: int, lo: int, hi: int, s: int, js: seq<Jewel>)
    requires Painted(r, g, c, lo, hi, s, js) && lo == s && hi == s + |js|
    ensures r == WithFaller(g, s, c, js)
  {
    GridExt(r, WithFaller(g, s, c, js));
  }

  /** Placing jewels of the same colours gives the same colours. */
  lemma WithFallerColors(g: Grid, s: int, c: int, js: seq<Jewel>, ks: seq<Jewel>)
    requires |js| == |ks| && forall t :: 0 <= t < |js| ==> js[t].color == ks[t].color
    ensures Colors(WithFaller(g, s, c, js)) == Colors(WithFaller(g, s, c, ks))
  {
    ColorsKeptBy(WithFaller(g, s, c, js), WithFaller(g, s, c, ks));
  }

  /** The three cells of column `c` from storage row `s` down, top first. */
  function CellsDown(g: Grid, s: int, c: int): (js: seq<Jewel>)
    requires Rect(g) && 0 <= s && s + FallerLength <= |g| && 0 <= c < Width(g)
    ensures |js| == FallerLength && forall t :: 0 <= t < FallerLength ==> js[t] == g[s + t][c]
  {
    [g[s][c], g[s + 1][c], g[s + 2][c]]
  }

  /** The effect of writing the pairs one after another (later pairs win). */
  function SetAll(g: Grid, pairs: seq<(Position, Jewel)>): (r: Grid)
    requires forall k :: 0 <= k < |pairs| ==> InGrid(g, pairs[k].0)
    requires Shaped(g, |g|, Width(g))
    ensures Shaped(r, |g|, Width(g))
  {
    if pairs == [] then g
    else
      var last := pairs[|pairs| - 1];
      var before := SetAll(g, pairs[..|pairs| - 1]);
      assert InGrid(g, last.0);
      assert |before[last.0.row]| == |g[last.0.row]|;
      SetAt(before, last.0, last.1)
  }

  /** Every cell with colour 0 is a fresh empty cell. */
  predicate Clean(g: Grid)
  {
    forall i, j :: 0 <= i < |g| && 0 <= j < |g[i]| && g[i][j].color == 0 ==> g[i][j] == Empty
  }

  predicate Marked(g: Grid, p: Position)
  {
    InGrid(g, p) && At(g, p).state == Matched
  }

  /** Some cell is in the matched state. */
  predicate AnyMatched(g: Grid)
  {
    exists i, j :: 0 <= i < |g| && 0 <= j < |g[i]| && g[i][j].state == Matched
  }

  /** The hidden buffer rows hold no jewel. */
  predicate HiddenRowsEmpty(g: Grid)
  {
    forall i, j :: 0 <= i < Hidden && i < |g| && 0 <= j < |g[i]| ==> g[i][j].color == 0
  }

  /** The board may go on: a cascade is pending, or nothing sticks out above the visible area. */
  predicate Fits(g: Grid)
  {
    AnyMatched(g) || HiddenRowsEmpty(g)
  }

  /** Matched cells become fresh empty cells; all others stay. */
  function Eliminate(g: Grid): (r: Grid)
    ensures |r| == |g| && forall i {:trigger r[i]} :: 0 <= i < |g| ==> |r[i]| == |g[i]|
    ensures forall i, j {:trigger r[i][j]} :: 0 <= i < |g| && 0 <= j < |g[i]| ==>
      r[i][j] == if g[i][j].state == Matched then Empty else g[i][j]
  {
    seq(|g|, i requires 0 <= i < |g| =>
      seq(|g[i]|, j requires 0 <= j < |g[i]| =>
        if g[i][j].state == Matched then Empty else g[i][j]))
  }

  /** After elimination no match is left, and a clean grid stays clean. */
  lemma EliminateClears(g: Grid)
    ensures !AnyMatched(Eliminate(g))
    ensures Clean(g) ==> Clean(Eliminate(g))
  {
  }
}
