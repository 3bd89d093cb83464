/** Gravity and seeding as functions of one column, and what they guarantee. */
module Settling {
  import opened Jewels
  import opened Grids

  /** The number of consecutive empty cells of `col` from index `t` on: the room to fall. */
  function EmptyRunFrom(col: seq<Jewel>, t: int): (k: nat)
    requires 0 <= t <= |col|
    ensures t + k <= |col|
    ensures forall u :: t <= u < t + k ==> col[u].color == 0
    ensures t + k == |col| || col[t + k].color != 0
    decreases |col| - t
  {
    if t == |col| || col[t].color != 0 then 0 else 1 + EmptyRunFrom(col, t + 1)
  }

  /** The room below `t` depends only on the colours from `t` down. */
  lemma {:induction false} EmptyRunSame(a: seq<Jewel>, b: seq<Jewel>, t: int)
    requires |a| == |b| && 0 <= t <= |a|
    requires forall u :: t <= u < |a| ==> a[u].color == b[u].color
    ensures EmptyRunFrom(a, t) == EmptyRunFrom(b, t)
    decreases |a| - t
  {
    if t < |a| {
      EmptyRunSame(a, b, t + 1);
    }
  }

  /** The occupied cells of a column, top to bottom. */
  function NonEmpty(s: seq<Jewel>): (r: seq<Jewel>)
    ensures |r| <= |s|
  {
    if s == [] then [] else (if s[0].color != 0 then [s[0]] else []) + NonEmpty(s[1..])
  }

  /** The colours of the occupied cells, top to bottom. */
  function NonEmptyColors(s: seq<Jewel>): seq<Color>
  {
    if s == [] then [] else (if s[0].color != 0 then [s[0].color] else []) + NonEmptyColors(s[1..])
  }

  /** The non-zero entries of a colour sequence. */
  function NonZero(cs: seq<Color>): seq<Color>
  {
    if cs == [] then [] else (if cs[0] != 0 then [cs[0]] else []) + NonZero(cs[1..])
  }

  /** The occupied cells from `i` on: the cell at `i` (when occupied), then those after it. */
  lemma NonEmptyAt(a: seq<Jewel>, i: int)
    requires 0 <= i < |a|
    ensures NonEmpty(a[i..]) == (if a[i].color != 0 then [a[i]] else []) + NonEmpty(a[i + 1..])
    ensures NonEmptyColors(a[i..]) == (if a[i].color != 0 then [a[i].color] else []) + NonEmptyColors(a[i + 1..])
  {
    assert a[i..][0] == a[i] && a[i..][1..] == a[i + 1..];
  }

  lemma NonZeroAt(a: seq<Color>, i: int)
    requires 0 <= i < |a|
    ensures NonZero(a[i..]) == (if a[i] != 0 then [a[i]] else []) + NonZero(a[i + 1..])
  {
    assert a[i..][0] == a[i] && a[i..][1..] == a[i + 1..];
  }

  /** A run of empty cells from `i` to `j` contributes no occupied cell. */
  lemma {:induction false} SkipEmpties(a: seq<Jewel>, i: int, j: int)
    requires 0 <= i <= j <= |a|
    requires forall u :: i <= u < j ==> a[u].color == 0
    ensures NonEmpty(a[i..]) == NonEmpty(a[j..])
    ensures NonEmptyColors(a[i..]) == NonEmptyColors(a[j..])
    decreases j - i
  {
    if i < j {
      NonEmptyAt(a, i);
      SkipEmpties(a, i + 1, j);
    }
  }

  lemma {:induction false} NonEmptyOfFull(s: seq<Jewel>)
    requires forall u :: 0 <= u < |s| ==> s[u].color != 0
    ensures NonEmpty(s) == s
    decreases |s|
  {
    if s != [] {
      NonEmptyOfFull(s[1..]);
      assert s == [s[0]] + s[1..];
    }
  }

  /** From index `i` on, no empty cell lies anywhere below an occupied one. */
  predicate SettledFrom(s: seq<Jewel>, i: int)
  {
    forall u, v :: i <= u < v < |s| && 0 <= u && s[u].color != 0 ==> s[v].color != 0
  }

  predicate Settled(s: seq<Jewel>)
  {
    SettledFrom(s, 0)
  }

  /** Every empty cell of the column is a fresh empty cell. */
  predicate CleanColumn(s: seq<Jewel>)
  {
    forall u :: 0 <= u < |s| && s[u].color == 0 ==> s[u] == Empty
  }

  // ---------------------------------------------------------------- gravity

  /** What `apply_gravity` does at storage row `i` of one column: the cell (empty or not)
      drops by the room below it, and a fresh empty cell takes its place. */
  function GravityStep(col: seq<Jewel>, i: int): (r: seq<Jewel>)
    requires 0 <= i < |col|
    ensures |r| == |col|
  {
    var e := EmptyRunFrom(col, i + 1);
    if e > 0 then col[i + e := col[i]][i := Empty] else col
  }

  /** The column once rows `|col| - 1` down to `i` have been processed, bottom row first. */
  function Settle(col: seq<Jewel>, i: int): (r: seq<Jewel>)
    requires 0 <= i <= |col|
    ensures |r| == |col|
    decreases |col| - i
  {
    if i == |col| then col else GravityStep(Settle(col, i + 1), i)
  }

  function GravityColumn(col: seq<Jewel>): (r: seq<Jewel>)
    ensures |r| == |col|
  {
    Settle(col, 0)
  }

  /** In a column settled from `t`, every cell past the run of empty cells at `t` is occupied. */
  lemma FullAfterRun(s: seq<Jewel>, t: int)
    requires 0 <= t <= |s| && SettledFrom(s, t)
    ensures forall v :: t + EmptyRunFrom(s, t) <= v < |s| ==> s[v].color != 0
  {
    var k := EmptyRunFrom(s, t);
    if t + k < |s| {
      assert s[t + k].color != 0;
    }
  }

  /** One gravity step at row `i` keeps the rows above it and settles the column from `i`. */
  lemma StepSettles(prev: seq<Jewel>, i: int)
    requires 0 <= i < |prev| && SettledFrom(prev, i + 1)
    ensures forall u :: 0 <= u < i ==> GravityStep(prev, i)[u] == prev[u]
    ensures SettledFrom(GravityStep(prev, i), i)
    ensures CleanColumn(prev) ==> CleanColumn(GravityStep(prev, i))
  {
    var e := EmptyRunFrom(prev, i + 1);
    var r := GravityStep(prev, i);
    FullAfterRun(prev, i + 1);
    forall u, v | i <= u < v < |r| && r[u].color != 0
      ensures r[v].color != 0
    {
      if e > 0 {
        assert u >= i + e;
      }
    }
  }

  /** One gravity step at row `i` keeps the occupied cells from `i` down, in order. */
  lemma StepKeepsNonEmpty(prev: seq<Jewel>, i: int)
    requires 0 <= i < |prev|
    ensures NonEmpty(GravityStep(prev, i)[i..]) == NonEmpty(prev[i..])
  {
    var e := EmptyRunFrom(prev, i + 1);
    var r := GravityStep(prev, i);
    if e > 0 {
      SkipEmpties(r, i, i + e);
      NonEmptyAt(r, i + e);
      assert r[i + e + 1..] == prev[i + e + 1..];
      NonEmptyAt(prev, i);
      SkipEmpties(prev, i + 1, i + e + 1);
    }
  }

  /** Processing rows `|col| - 1` down to `i` keeps the rows above `i` and settles the rest. */
  lemma {:induction false} SettleShape(col: seq<Jewel>, i: int)
    requires 0 <= i <= |col|
    ensures forall u :: 0 <= u < i ==> Settle(col, i)[u] == col[u]
    ensures SettledFrom(Settle(col, i), i)
    ensures CleanColumn(col) ==> CleanColumn(Settle(col, i))
    decreases |col| - i
  {
    if i < |col| {
      SettleShape(col, i + 1);
      StepSettles(Settle(col, i + 1), i);
    }
  }

  /** Processing rows `|col| - 1` down to `i` keeps the occupied cells from `i` down, in order. */
  lemma {:induction false} SettleKeepsNonEmpty(col: seq<Jewel>, i: int)
    requires 0 <= i <= |col|
    ensures NonEmpty(Settle(col, i)[i..]) == NonEmpty(col[i..])
    decreases |col| - i
  {
    if i < |col| {
      SettleKeepsNonEmpty(col, i + 1);
      SettleShape(col, i + 1);
      var prev := Settle(col, i + 1);
      StepKeepsNonEmpty(prev, i);
      var p := prev[i..];
      var c := col[i..];
      assert p[0] == c[0] == col[i];
      assert p[1..] == prev[i + 1..] && c[1..] == col[i + 1..];
    }
  }

  lemma SettleFacts(col: seq<Jewel>, i: int)
    requires 0 <= i <= |col|
    ensures forall u :: 0 <= u < i ==> Settle(col, i)[u] == col[u]
    ensures SettledFrom(Settle(col, i), i)
    ensures NonEmpty(Settle(col, i)[i..]) == NonEmpty(col[i..])
    ensures CleanColumn(col) ==> CleanColumn(Settle(col, i))
  {
    SettleShape(col, i);
    SettleKeepsNonEmpty(col, i);
  }

  /** A settled column is its empty cells followed by its occupied cells. */
  lemma {:induction false} SettledSplit(a: seq<Jewel>)
    requires Settled(a)
    ensures forall u :: 0 <= u < |a| - |NonEmpty(a)| ==> a[u].color == 0
    ensures a[|a| - |NonEmpty(a)|..] == NonEmpty(a)
    decreases |a|
  {
    if a != [] {
      if a[0].color != 0 {
        NonEmptyOfFull(a);
      } else {
        assert Settled(a[1..]) by {
          forall u, v | 0 <= u < v < |a[1..]| && a[1..][u].color != 0
            ensures a[1..][v].color != 0
          {
            assert a[u + 1].color != 0;
          }
        }
        SettledSplit(a[1..]);
        assert NonEmpty(a) == NonEmpty(a[1..]);
        assert a[1..][|a| - 1 - |NonEmpty(a)|..] == a[|a| - |NonEmpty(a)|..];
      }
    }
  }

  /** Two settled columns of one height with the same occupied cells agree on every colour,
      and agree outright when their empty cells are all fresh. */
  lemma SettledDetermined(a: seq<Jewel>, b: seq<Jewel>)
    requires |a| == |b| && Settled(a) && Settled(b) && NonEmpty(a) == NonEmpty(b)
    ensures forall u :: 0 <= u < |a| ==> a[u].color == b[u].color
    ensures CleanColumn(a) && CleanColumn(b) ==> a == b
  {
    SettledSplit(a);
    SettledSplit(b);
    var k := |a| - |NonEmpty(a)|;
    forall u | 0 <= u < |a|
      ensures a[u].color == b[u].color
      ensures CleanColumn(a) && CleanColumn(b) ==> a[u] == b[u]
    {
      if u >= k {
        assert a[u] == a[k..][u - k] == b[k..][u - k] == b[u];
      }
    }
  }

  /** Column gravity settles the column and keeps its occupied cells in order. */
  lemma GravityColumnFacts(col: seq<Jewel>)
    ensures Settled(GravityColumn(col))
    ensures NonEmpty(GravityColumn(col)) == NonEmpty(col)
    ensures CleanColumn(col) ==> CleanColumn(GravityColumn(col))
  {
    SettleFacts(col, 0);
    assert GravityColumn(col)[0..] == GravityColumn(col);
    assert col[0..] == col;
  }

  lemma GravityColumnIdempotent(col: seq<Jewel>)
    ensures forall u :: 0 <= u < |col| ==> GravityColumn(GravityColumn(col))[u].color == GravityColumn(col)[u].color
    ensures CleanColumn(col) ==> GravityColumn(GravityColumn(col)) == GravityColumn(col)
  {
    GravityColumnFacts(col);
    GravityColumnFacts(GravityColumn(col));
    SettledDetermined(GravityColumn(GravityColumn(col)), GravityColumn(col));
  }

  /** `apply_gravity` on the whole grid: every column settles on its own. */
  function Gravity(g: Grid): (r: Grid)
    requires Rect(g)
    ensures Shaped(r, |g|, Width(g)) && Rect(r) && Width(r) == Width(g)
  {
    seq(|g|, i requires 0 <= i < |g| =>
      seq(Width(g), j requires 0 <= j < Width(g) => GravityColumn(Column(g, j))[i]))
  }

  lemma ColumnOfGravity(g: Grid, j: int)
    requires Rect(g) && 0 <= j < Width(g)
    ensures Column(Gravity(g), j) == GravityColumn(Column(g, j))
  {
  }

  /** After gravity no occupied cell lies above an empty cell of its column. */
  lemma GravitySettles(g: Grid)
    requires Rect(g)
    ensures forall i, k, j :: 0 <= i < k < |g| && 0 <= j < Width(g) && Gravity(g)[i][j].color != 0 ==>
      Gravity(g)[k][j].color != 0
  {
    forall i, k, j | 0 <= i < k < |g| && 0 <= j < Width(g) && Gravity(g)[i][j].color != 0
      ensures Gravity(g)[k][j].color != 0
    {
      GravityColumnFacts(Column(g, j));
    }
  }

  /** Gravity keeps each column's occupied jewels, in the same top-to-bottom order. */
  lemma GravityKeepsColumns(g: Grid)
    requires Rect(g)
    ensures forall j :: 0 <= j < Width(g) ==> NonEmpty(Column(Gravity(g), j)) == NonEmpty(Column(g, j))
  {
    forall j | 0 <= j < Width(g)
      ensures NonEmpty(Column(Gravity(g), j)) == NonEmpty(Column(g, j))
    {
      ColumnOfGravity(g, j);
      GravityColumnFacts(Column(g, j));
    }
  }

  /** A second gravity pass changes no colour; on a clean grid it changes nothing at all. */
  lemma GravityIdempotent(g: Grid)
    requires Rect(g)
    ensures Colors(Gravity(Gravity(g))) == Colors(Gravity(g))
    ensures Clean(g) ==> Gravity(Gravity(g)) == Gravity(g)
  {
    var once: Grid := Gravity(g);
    var twice: Grid := Gravity(once);
    forall i, j | 0 <= i < |g| && 0 <= j < Width(g)
      ensures twice[i][j].color == once[i][j].color
      ensures Clean(g) ==> twice[i][j] == once[i][j]
    {
      ColumnOfGravity(g, j);
      ColumnOfGravity(once, j);
      GravityColumnIdempotent(Column(g, j));
      if Clean(g) {
        assert CleanColumn(Column(g, j));
      }
    }
    ColorsKeptBy(twice, once);
    if Clean(g) {
      GridExt(twice, once);
    }
  }

  // ---------------------------------------------------------------- seeding

  /** What `fill` does for visible row `s - Hidden` of one column: the colour is written at the
      lowest cell of the empty run below `s` (at `s` itself when there is none), and only the
      colour changes. */
  function FillStep(col: seq<Jewel>, s: int, c: Color): (r: seq<Jewel>)
    requires 0 <= s < |col|
    ensures |r| == |col|
    ensures forall u :: 0 <= u < |col| ==> r[u].state == col[u].state
    ensures forall u :: 0 <= u < s ==> r[u] == col[u]
  {
    var k := EmptyRunFrom(col, s + 1);
    col[s + k := col[s + k].(color := c)]
  }

  /** The column once visible rows `|cc| - 1` down to `i` have been written. */
  function FillFrom(col: seq<Jewel>, cc: seq<Color>, i: int): (r: seq<Jewel>)
    requires |col| == |cc| + Hidden && 0 <= i <= |cc|
    ensures |r| == |col|
    ensures forall u :: 0 <= u < |col| ==> r[u].state == col[u].state
    ensures forall u :: 0 <= u < i + Hidden ==> r[u] == col[u]
    decreases |cc| - i
  {
    if i == |cc| then col else FillStep(FillFrom(col, cc, i + 1), i + Hidden, cc[i])
  }

  /** Writing into an empty cell above a settled part keeps that part settled. */
  lemma FillStepSettles(prev: seq<Jewel>, s: int, c: Color)
    requires 0 <= s < |prev| && SettledFrom(prev, s + 1) && prev[s].color == 0
    ensures SettledFrom(FillStep(prev, s, c), s)
  {
    var t := s + EmptyRunFrom(prev, s + 1);
    var r := FillStep(prev, s, c);
    FullAfterRun(prev, s + 1);
    forall u, v | s <= u < v < |r| && r[u].color != 0
      ensures r[v].color != 0
    {
      assert u >= t;
    }
  }

  /** Writing into an empty cell puts the new colour on top of the colours below it. */
  lemma FillStepColors(prev: seq<Jewel>, s: int, c: Color)
    requires 0 <= s < |prev| && prev[s].color == 0
    ensures NonEmptyColors(FillStep(prev, s, c)[s..]) == (if c != 0 then [c] else []) + NonEmptyColors(prev[s + 1..])
  {
    var t := s + EmptyRunFrom(prev, s + 1);
    var r := FillStep(prev, s, c);
    SkipEmpties(r, s, t);
    NonEmptyAt(r, t);
    assert r[t + 1..] == prev[t + 1..];
    SkipEmpties(prev, s + 1, t + 1);
  }

  /** Seeding one column changes colours only, and only from row `i + Hidden` down. */
  lemma {:induction false} FillKeeps(col: seq<Jewel>, cc: seq<Color>, i: int)
    requires |col| == |cc| + Hidden && 0 <= i <= |cc|
    ensures forall u :: 0 <= u < |col| ==> FillFrom(col, cc, i)[u].state == col[u].state
    ensures forall u :: 0 <= u < i + Hidden ==> FillFrom(col, cc, i)[u] == col[u]
    decreases |cc| - i
  {
    if i < |cc| {
      FillKeeps(col, cc, i + 1);
    }
  }

  /** The cells above the rows still to be written keep their value. */
  lemma {:induction false} FillKeepsAbove(col: seq<Jewel>, cc: seq<Color>, i: int, u: int)
    requires |col| == |cc| + Hidden && 0 <= i <= |cc| && 0 <= u < i + Hidden
    ensures FillFrom(col, cc, i)[u] == col[u]
    decreases |cc| - i
  {
    if i < |cc| {
      FillKeepsAbove(col, cc, i + 1, u);
    }
  }

  /** Seeding a column whose visible part is empty leaves it settled. */
  lemma {:induction false} FillSettles(col: seq<Jewel>, cc: seq<Color>, i: int)
    requires |col| == |cc| + Hidden && 0 <= i <= |cc|
    requires forall u :: i + Hidden <= u < |col| ==> col[u].color == 0
    ensures SettledFrom(FillFrom(col, cc, i), i + Hidden)
    decreases |cc| - i
  {
    if i < |cc| {
      FillSettles(col, cc, i + 1);
      FillKeepsAbove(col, cc, i + 1, i + Hidden);
      FillStepSettles(FillFrom(col, cc, i + 1), i + Hidden, cc[i]);
    }
  }

  /** One seeding step on top of the colours written so far. */
  lemma FillColorsStep(col: seq<Jewel>, cc: seq<Color>, i: int)
    requires |col| == |cc| + Hidden && 0 <= i < |cc|
    requires col[i + Hidden].color == 0
    requires NonEmptyColors(FillFrom(col, cc, i + 1)[(i + 1) + Hidden..]) == NonZero(cc[i + 1..])
    ensures NonEmptyColors(FillFrom(col, cc, i)[i + Hidden..]) == NonZero(cc[i..])
  {
    FillFromColors(col, cc, i);
    NonZeroAt(cc, i);
  }

  /** Writing row `i` puts its colour, when non-zero, ahead of those written before. */
  lemma FillFromColors(col: seq<Jewel>, cc: seq<Color>, i: int)
    requires |col| == |cc| + Hidden && 0 <= i < |cc|
    requires col[i + Hidden].color == 0
    ensures NonEmptyColors(FillFrom(col, cc, i)[i + Hidden..]) ==
      (if cc[i] != 0 then [cc[i]] else []) + NonEmptyColors(FillFrom(col, cc, i + 1)[(i + 1) + Hidden..])
  {
    var prev := FillFrom(col, cc, i + 1);
    FillKeepsAbove(col, cc, i + 1, i + Hidden);
    assert FillFrom(col, cc, i) == FillStep(prev, i + Hidden, cc[i]);
    FillStepColors(prev, i + Hidden, cc[i]);
  }

  /** Before any write the visible part below the rows written so far is empty. */
  lemma FillColorsBase(col: seq<Jewel>, cc: seq<Color>)
    requires |col| == |cc| + Hidden
    ensures NonEmptyColors(FillFrom(col, cc, |cc|)[|cc| + Hidden..]) == NonZero(cc[|cc|..])
  {
    assert col[|cc| + Hidden..] == [];
    assert cc[|cc|..] == [];
  }

  /** Seeding a column whose visible part is empty leaves in it the non-zero colours of the
      contents, in their order. */
  lemma {:induction false} FillColors(col: seq<Jewel>, cc: seq<Color>, i: int)
    requires |col| == |cc| + Hidden && 0 <= i <= |cc|
    requires forall u :: i + Hidden <= u < |col| ==> col[u].color == 0
    ensures NonEmptyColors(FillFrom(col, cc, i)[i + Hidden..]) == NonZero(cc[i..])
    decreases |cc| - i
  {
    if i < |cc| {
      FillColors(col, cc, i + 1);
      FillColorsStep(col, cc, i);
    } else {
      FillColorsBase(col, cc);
    }
  }

  /** `fill` on the whole grid, from the visible contents `cc` (row-major, visible rows). */
  function FillGrid(g: Grid, cc: ColorGrid): (r: Grid)
    requires Rect(g) && |g| == |cc| + Hidden && Shaped(cc, |cc|, Width(g))
    ensures Shaped(r, |g|, Width(g)) && Rect(r) && Width(r) == Width(g)
  {
    seq(|g|, i requires 0 <= i < |g| =>
      seq(Width(g), j requires 0 <= j < Width(g) => FillFrom(Column(g, j), Column(cc, j), 0)[i]))
  }

  /** Seeding writes colours only, and never touches the hidden rows. */
  lemma FillOnlyColors(g: Grid, cc: ColorGrid)
    requires Rect(g) && |g| == |cc| + Hidden && Shaped(cc, |cc|, Width(g))
    ensures forall i, j :: 0 <= i < |g| && 0 <= j < Width(g) ==> FillGrid(g, cc)[i][j].state == g[i][j].state
    ensures forall i, j :: 0 <= i < Hidden && 0 <= j < Width(g) ==> FillGrid(g, cc)[i][j] == g[i][j]
  {
    forall i, j | 0 <= i < |g| && 0 <= j < Width(g)
      ensures FillGrid(g, cc)[i][j].state == g[i][j].state
      ensures i < Hidden ==> FillGrid(g, cc)[i][j] == g[i][j]
    {
      FillKeeps(Column(g, j), Column(cc, j), 0);
    }
  }

  /** Seeding one column of a field whose visible area is empty. */
  lemma FillColumnSettles(g: Grid, cc: ColorGrid, j: int)
    requires Rect(g) && |g| == |cc| + Hidden && Shaped(cc, |cc|, Width(g)) && 0 <= j < Width(g)
    requires forall i, j :: Hidden <= i < |g| && 0 <= j < Width(g) ==> g[i][j].color == 0
    ensures SettledFrom(Column(FillGrid(g, cc), j), Hidden)
    ensures NonEmptyColors(Column(FillGrid(g, cc), j)[Hidden..]) == NonZero(Column(cc, j))
  {
    var col := Column(g, j);
    FillSettles(col, Column(cc, j), 0);
    FillColors(col, Column(cc, j), 0);
    assert Column(FillGrid(g, cc), j) == FillFrom(col, Column(cc, j), 0);
    assert Column(cc, j)[0..] == Column(cc, j);
  }

  /** Seeding a field whose visible area is empty leaves every column at rest, holding the
      column's non-zero colours from the contents in their order. */
  lemma FillOnEmptySettles(g: Grid, cc: ColorGrid)
    requires Rect(g) && |g| == |cc| + Hidden && Shaped(cc, |cc|, Width(g))
    requires forall i, j :: Hidden <= i < |g| && 0 <= j < Width(g) ==> g[i][j].color == 0
    ensures forall i, k, j :: Hidden <= i < k < |g| && 0 <= j < Width(g) && FillGrid(g, cc)[i][j].color != 0 ==>
      FillGrid(g, cc)[k][j].color != 0
    ensures forall j :: 0 <= j < Width(g) ==>
      NonEmptyColors(Column(FillGrid(g, cc), j)[Hidden..]) == NonZero(Column(cc, j))
  {
    forall j | 0 <= j < Width(g)
      ensures SettledFrom(Column(FillGrid(g, cc), j), Hidden)
      ensures NonEmptyColors(Column(FillGrid(g, cc), j)[Hidden..]) == NonZero(Column(cc, j))
    {
      FillColumnSettles(g, cc, j);
    }
    forall i, k, j | Hidden <= i < k < |g| && 0 <= j < Width(g) && FillGrid(g, cc)[i][j].color != 0
      ensures FillGrid(g, cc)[k][j].color != 0
    {
      assert Column(FillGrid(g, cc), j)[i] == FillGrid(g, cc)[i][j];
      assert Column(FillGrid(g, cc), j)[k] == FillGrid(g, cc)[k][j];
    }
  }
}
