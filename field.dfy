/** The field: the grid of cells, addressed in visible coordinates by its callers. */
module Fields {
  import opened Jewels
  import opened Grids
  import opened Settling
  import opened Moves
  import opened Matching

  /** The storage address of a visible position: the hidden rows come first. */
  function Storage(pos: Position): Position
  {
    Position(pos.row + Hidden, pos.col)
  }

  /** Column `j` of `g` after cell (`r`, `j`) is replaced: only that column changes. */
  lemma ColumnsAfterWrite(g: Grid, w: nat, r: int, j: int, x: Jewel)
    requires Shaped(g, |g|, w) && 0 <= r < |g| && 0 <= j < w
    ensures Shaped(g[r := g[r][j := x]], |g|, w)
    ensures Column(g[r := g[r][j := x]], j) == Column(g, j)[r := x]
    ensures forall j' :: 0 <= j' < w && j' != j ==> Column(g[r := g[r][j := x]], j') == Column(g, j')
  {
  }

  /** Columns left of `j` have settled from storage row `a` down, the others from row `b`. */
  ghost predicate SettledTo(g: Grid, g0: Grid, w: nat, j: int, a: int, b: int)
  {
    Shaped(g0, |g0|, w) && Shaped(g, |g0|, w) && 0 <= a <= |g0| && 0 <= b <= |g0| &&
    forall j' :: 0 <= j' < w ==> Column(g, j') == Settle(Column(g0, j'), if j' < j then a else b)
  }

  /** One cell of `apply_gravity`: column `j` takes its next settling step, the others wait. */
  lemma GravityCellStep(before: Grid, after: Grid, g0: Grid, w: nat, i: int, j: int)
    requires Shaped(g0, |g0|, w) && Shaped(before, |g0|, w) && Shaped(after, |g0|, w)
    requires 0 <= i < |g0| && 0 <= j < w
    requires forall j' :: 0 <= j' < w ==> Column(before, j') == Settle(Column(g0, j'), if j' < j then i else i + 1)
    requires Column(after, j) == GravityStep(Column(before, j), i)
    requires forall j' :: 0 <= j' < w && j' != j ==> Column(after, j') == Column(before, j')
    ensures forall j' :: 0 <= j' < w ==> Column(after, j') == Settle(Column(g0, j'), if j' < j + 1 then i else i + 1)
  {
  }

  /** One cell of `fill`: column `j` takes its next seeding step, the others wait. */
  lemma FillCellStep(before: Grid, after: Grid, g0: Grid, cc: ColorGrid, w: nat, i: int, j: int)
    requires Shaped(g0, |g0|, w) && Shaped(before, |g0|, w) && Shaped(after, |g0|, w)
    requires Shaped(cc, |cc|, w) && |g0| == |cc| + Hidden && 0 <= i < |cc| && 0 <= j < w
    requires forall j' :: 0 <= j' < w ==>
      Column(before, j') == FillFrom(Column(g0, j'), Column(cc, j'), if j' < j then i else i + 1)
    requires Column(after, j) == FillStep(Column(before, j), i + Hidden, cc[i][j])
    requires forall j' :: 0 <= j' < w && j' != j ==> Column(after, j') == Column(before, j')
    ensures forall j' :: 0 <= j' < w ==>
      Column(after, j') == FillFrom(Column(g0, j'), Column(cc, j'), if j' < j + 1 then i else i + 1)
  {
    var col := Column(g0, j);
    var ccol := Column(cc, j);
    assert ccol[i] == cc[i][j];
    assert FillFrom(col, ccol, i) == FillStep(FillFrom(col, ccol, i + 1), i + Hidden, ccol[i]);
  }

  /** Columns left of `j` have been seeded from visible row `a` down, the others from row `b`. */
  ghost predicate FilledFrom(g: Grid, g0: Grid, cc: ColorGrid, w: nat, j: int, a: int, b: int)
  {
    Shaped(g0, |g0|, w) && Shaped(g, |g0|, w) && Shaped(cc, |cc|, w) && |g0| == |cc| + Hidden &&
    0 <= a <= |cc| && 0 <= b <= |cc| &&
    forall j' :: 0 <= j' < w ==>
      Column(g, j') == FillFrom(Column(g0, j'), Column(cc, j'), if j' < j then a else b)
  }

  /** The grid with the colour of cell (`t`, `j`) replaced: `set_color` on a cell. */
  function WriteColor(g: Grid, t: int, j: int, c: Color): Grid
    requires 0 <= t < |g| && 0 <= j < |g[t]|
  {
    g[t := g[t][j := g[t][j].(color := c)]]
  }

  /** The write `fill` makes for visible cell (`i`, `j`) keeps the column invariant. */
  lemma FillWriteStep(before: Grid, g0: Grid, cc: ColorGrid, w: nat, i: int, j: int, t: int)
    requires FilledFrom(before, g0, cc, w, j, i, i + 1) && 0 <= j < w
    requires t == i + Hidden + EmptyRunFrom(Column(before, j), i + Hidden + 1)
    ensures Shaped(WriteColor(before, t, j, cc[i][j]), |g0|, w)
    ensures FilledFrom(WriteColor(before, t, j, cc[i][j]), g0, cc, w, j + 1, i, i + 1)
  {
    var c := cc[i][j];
    ColumnsAfterWrite(before, w, t, j, before[t][j].(color := c));
    assert Column(before, j)[t] == before[t][j];
    FillCellStep(before, WriteColor(before, t, j, c), g0, cc, w, i, j);
  }

  /** Cell (`i`, `j`) moved down to row `t`, a fresh empty cell left behind; nothing when `t == i`. */
  function MoveDown(g: Grid, i: int, j: int, t: int): Grid
    requires 0 <= i <= t < |g| && 0 <= j < |g[i]| && j < |g[t]|
  {
    if t == i then g
    else
      var moved := g[t := g[t][j := g[i][j]]];
      moved[i := moved[i][j := Empty]]
  }

  /** The move `apply_gravity` makes for storage cell (`i`, `j`) keeps the column invariant. */
  lemma GravityWriteStep(before: Grid, g0: Grid, w: nat, i: int, j: int, t: int)
    requires SettledTo(before, g0, w, j, i, i + 1) && 0 <= i < |g0| && 0 <= j < w
    requires t == i + EmptyRunFrom(Column(before, j), i + 1)
    ensures Shaped(MoveDown(before, i, j, t), |g0|, w)
    ensures SettledTo(MoveDown(before, i, j, t), g0, w, j + 1, i, i + 1)
  {
    var jewel := before[i][j];
    assert Column(before, j)[i] == jewel;
    var after := MoveDown(before, i, j, t);
    if t > i {
      var moved := before[t := before[t][j := jewel]];
      ColumnsAfterWrite(before, w, t, j, jewel);
      ColumnsAfterWrite(moved, w, i, j, Empty);
      assert after == moved[i := moved[i][j := Empty]];
    }
    GravityCellStep(before, after, g0, w, i, j);
  }

  /** A grid whose every column has settled completely is the gravity of the start. */
  lemma GravityByColumns(g: Grid, g0: Grid, w: nat)
    requires Shaped(g0, |g0|, w) && Shaped(g, |g0|, w) && |g0| > 0
    requires SettledTo(g, g0, w, w, 0, 0)
    ensures g == Gravity(g0)
  {
    forall r, j | 0 <= r < |g0| && 0 <= j < w
      ensures g[r][j] == Gravity(g0)[r][j]
    {
      assert Column(g, j)[r] == g[r][j];
    }
    GridExt(g, Gravity(g0));
  }

  /** A grid whose every column has been seeded completely is the seeding of the start. */
  lemma FillByColumns(g: Grid, g0: Grid, cc: ColorGrid, w: nat)
    requires Shaped(g0, |g0|, w) && Shaped(g, |g0|, w) && |g0| > 0
    requires Shaped(cc, |cc|, w) && |g0| == |cc| + Hidden
    requires FilledFrom(g, g0, cc, w, w, 0, 0)
    ensures g == FillGrid(g0, cc)
  {
    forall r, j | 0 <= r < |g0| && 0 <= j < w
      ensures g[r][j] == FillGrid(g0, cc)[r][j]
    {
      assert Column(g, j)[r] == g[r][j];
    }
    GridExt(g, FillGrid(g0, cc));
  }

  class Field {
    /** Number of storage rows: the visible rows plus the hidden buffer. */
    const rows: nat
    const cols: nat
    /** Storage rows, top first; the first `Hidden` rows are not shown. */
    var cells: Grid

    ghost predicate Valid()
      reads this
    {
      rows >= Hidden && Shaped(cells, rows, cols)
    }

    /** An empty field of `visibleRows` visible rows and `cols` columns. */
    constructor (visibleRows: nat, cols: nat)
      ensures Valid() && rows == visibleRows + Hidden && this.cols == cols
      ensures forall i, j :: 0 <= i < rows && 0 <= j < cols ==> cells[i][j] == Empty
    {
      var g: Grid := [];
      var i := 0;
      while i < visibleRows + Hidden
        invariant 0 <= i <= visibleRows + Hidden && Shaped(g, i, cols)
        invariant forall r, j :: 0 <= r < i && 0 <= j < cols ==> g[r][j] == Empty
      {
        var row: seq<Jewel> := [];
        var j := 0;
        while j < cols
          invariant 0 <= j <= cols && |row| == j
          invariant forall k :: 0 <= k < j ==> row[k] == Empty
        {
          row := row + [Empty];
          j := j + 1;
        }
        g := g + [row];
        i := i + 1;
      }
      rows := visibleRows + Hidden;
      this.cols := cols;
      cells := g;
    }

    function VisibleRows(): (n: nat)
      reads this
      requires Valid()
      ensures n + Hidden == rows
    {
      rows - Hidden
    }

    /** The rows a player sees. */
    function VisibleCells(): (v: Grid)
      reads this
      requires Valid()
      ensures |v| == VisibleRows()
      ensures forall i :: 0 <= i < |v| ==> v[i] == cells[i + Hidden]
    {
      cells[Hidden..]
    }

    /** A visible position may go down to row `-Hidden`, the top of the hidden buffer. */
    predicate IsValidSpace(pos: Position): (b: bool)
      reads this
      requires Valid()
      ensures b <==> InGrid(cells, Storage(pos))
    {
      -Hidden <= pos.row < VisibleRows() && 0 <= pos.col < cols
    }

    function GetCell(pos: Position): (j: Jewel)
      reads this
      requires Valid() && IsValidSpace(pos)
      ensures j == At(cells, Storage(pos))
    {
      cells[pos.row + Hidden][pos.col]
    }

    /** Compares with an empty jewel by colour only, as the source's `==` does. */
    function IsEmptySpace(pos: Position): (r: bool)
      reads this
      requires Valid() && IsValidSpace(pos)
      ensures r <==> SameColor(GetCell(pos), Empty)
    {
      cells[pos.row + Hidden][pos.col].color == 0
    }

    /** The three cells of a faller whose bottom jewel is at visible `anchor`, top first. */
    function FallerCells(anchor: Position): (js: seq<Jewel>)
      reads this
      requires Valid() && 0 <= anchor.row < VisibleRows() && 0 <= anchor.col < cols
      ensures |js| == FallerLength
      ensures forall t :: 0 <= t < FallerLength ==> js[t] == cells[anchor.row + t][anchor.col]
    {
      CellsDown(cells, anchor.row, anchor.col)
    }

    method SetCell(pos: Position, jewel: Jewel)
      requires Valid() && IsValidSpace(pos)
      modifies this
      ensures Valid() && cells == SetAt(old(cells), Storage(pos), jewel)
    {
      cells := cells[pos.row + Hidden := cells[pos.row + Hidden][pos.col := jewel]];
    }

    /** The write loop of `rotate_faller`: the jewels `js` of a faller whose bottom jewel is at
        visible `anchor`, written bottom first into its three cells. */
    method WriteFaller(anchor: Position, js: seq<Jewel>)
      requires Valid() && 0 <= anchor.row < VisibleRows() && 0 <= anchor.col < cols && |js| == FallerLength
      modifies this
      ensures Valid() && cells == WithFaller(old(cells), anchor.row, anchor.col, js)
      ensures FallerCells(anchor) == js
    {
      ghost var g0 := cells;
      var currentRow := anchor.row;
      var col := anchor.col;
      ghost var top := anchor.row + FallerLength;
      PaintedNone(g0, col, top, anchor.row, js);
      var t := 0;
      while t < FallerLength
        invariant 0 <= t <= FallerLength && currentRow == anchor.row - t && top == anchor.row + FallerLength - t
        invariant Valid() && Painted(cells, g0, col, top, anchor.row + FallerLength, anchor.row, js)
      {
        var jewel := js[FallerLength - 1 - t];
        PaintedAbove(cells, g0, col, top, anchor.row + FallerLength, anchor.row, js, Storage(Position(currentRow, col)), jewel);
        SetCell(Position(currentRow, col), jewel);
        currentRow := currentRow - 1;
        t := t + 1;
        top := top - 1;
      }
      PaintedAll(cells, g0, col, top, anchor.row + FallerLength, anchor.row, js);
      PlacedCells(g0, anchor, js);
    }

    /** The write loop of `drop_faller`: the jewels `js`, top first, into column `col` from the
        top hidden row down to visible row 0. */
    method DropInto(col: int, js: seq<Jewel>)
      requires Valid() && VisibleRows() > 0 && 0 <= col < cols && |js| == FallerLength
      modifies this
      ensures Valid() && cells == WithFaller(old(cells), 0, col, js)
      ensures FallerCells(Position(0, col)) == js
    {
      ghost var g0 := cells;
      PaintedNone(g0, col, 0, 0, js);
      var index := 0;
      while index < |js|
        invariant 0 <= index <= FallerLength
        invariant Valid() && Painted(cells, g0, col, 0, index, 0, js)
      {
        var position := Position(index - (FallerLength - 1), col);
        PaintedBelow(cells, g0, col, 0, index, 0, js, Storage(position), js[index]);
        SetCell(position, js[index]);
        index := index + 1;
      }
      PaintedAll(cells, g0, col, 0, index, 0, js);
      PlacedCells(g0, Position(0, col), js);
    }

    /** The write loop of `move_faller_down`: the jewels `js` of a faller whose top jewel is at
        storage row `anchor.row` written one row lower, bottom first, then its old top cell
        emptied. */
    method LowerFaller(anchor: Position, js: seq<Jewel>)
      requires Valid() && 0 <= anchor.row && anchor.row + FallerLength < rows && 0 <= anchor.col < cols
      requires |js| == FallerLength
      modifies this
      ensures Valid() && cells == Descended(old(cells), anchor.row, anchor.col, js)
    {
      ghost var g0 := cells;
      var col := anchor.col;
      var topRow := anchor.row - (FallerLength - 1);
      var jewelIndex := FallerLength - 1;
      var row := topRow + FallerLength - 1;
      ghost var low := anchor.row + 1 + FallerLength;
      PaintedNone(g0, col, low, anchor.row + 1, js);
      while row >= topRow
        invariant topRow - 1 <= row <= topRow + FallerLength - 1 && jewelIndex == row - topRow
        invariant low == row + FallerLength + 1 && Valid()
        invariant row >= topRow ==> Painted(cells, g0, col, low, anchor.row + 1 + FallerLength, anchor.row + 1, js)
        invariant row < topRow ==> cells == Descended(g0, anchor.row, anchor.col, js)
      {
        var jewel := js[jewelIndex];
        PaintedAbove(cells, g0, col, low, anchor.row + 1 + FallerLength, anchor.row + 1, js, Storage(Position(row + 1, col)), jewel);
        jewelIndex := jewelIndex - 1;
        SetCell(Position(row + 1, col), jewel);
        low := low - 1;
        if row == topRow {
          PaintedAll(cells, g0, col, low, anchor.row + 1 + FallerLength, anchor.row + 1, js);
          SetCell(Position(row, col), Empty);
        }
        row := row - 1;
      }
    }

    /** The write loop of `move_faller_column`: the jewels `js` of a faller whose bottom jewel is
        at visible `anchor`, bottom first, each written into column `c2` and its old cell emptied. */
    method ShiftFaller(anchor: Position, c2: int, js: seq<Jewel>)
      requires Valid() && 0 <= anchor.row < VisibleRows() && 0 <= anchor.col < cols
      requires 0 <= c2 < cols && c2 != anchor.col && |js| == FallerLength
      modifies this
      ensures Valid() && cells == Shifted(old(cells), anchor.row, anchor.col, c2, js)
    {
      ghost var g0 := cells;
      var col := anchor.col;
      var row := anchor.row;
      ghost var top := anchor.row + FallerLength;
      ShiftingNone(g0, anchor.row, col, c2, top, js);
      var t := 0;
      while t < FallerLength
        invariant 0 <= t <= FallerLength && row == anchor.row - t && top == anchor.row + FallerLength - t
        invariant Valid() && Shifting(cells, g0, anchor.row, col, c2, top, anchor.row + FallerLength, js)
      {
        var jewel := js[FallerLength - 1 - t];
        ShiftingAbove(cells, g0, anchor.row, col, c2, top, anchor.row + FallerLength, js,
          Storage(Position(row, c2)), jewel, Storage(Position(row, col)));
        SetCell(Position(row, c2), jewel);
        SetCell(Position(row, col), Empty);
        row := row - 1;
        t := t + 1;
        top := top - 1;
      }
      ShiftingAll(cells, g0, anchor.row, col, c2, top, anchor.row + FallerLength, js);
    }

    /** The faller's cells read back what was placed there. */
    lemma PlacedCells(g: Grid, anchor: Position, js: seq<Jewel>)
      requires Valid() && 0 <= anchor.row < VisibleRows() && 0 <= anchor.col < cols && |js| == FallerLength
      requires |g| == rows && cells == WithFaller(g, anchor.row, anchor.col, js)
      ensures FallerCells(anchor) == js
    {
      forall t | 0 <= t < FallerLength
        ensures cells[anchor.row + t][anchor.col] == js[t]
      {
        assert |g[anchor.row + t]| == cols;
      }
    }

    /** An assignment into the list of storage rows, as the game's own scans do. */
    method Store(p: Position, x: Jewel)
      requires Valid() && InGrid(cells, p)
      modifies this
      ensures Valid() && cells == SetAt(old(cells), p, x)
    {
      cells := cells[p.row := cells[p.row][p.col := x]];
    }

    /** Sets the jewels at `ps` to the matched state one at a time, as the search does with the
        jewels of a run it has found; colours stay as they were. */
    method MarkCells(ps: seq<Position>)
      requires Valid() && forall t :: 0 <= t < |ps| ==> InGrid(cells, ps[t])
      modifies this
      ensures Valid() && cells == MarkAll(old(cells), ps)
      ensures Colors(cells) == Colors(old(cells))
    {
      MarkNone(cells);
      var t := 0;
      while t < |ps|
        invariant 0 <= t <= |ps|
        invariant Valid() && cells == MarkAll(old(cells), ps[..t])
      {
        MarkAllStep(old(cells), ps, t);
        var q := ps[t];
        Store(q, cells[q.row][q.col].(state := Matched));
        t := t + 1;
      }
      assert ps[..t] == ps;
      MarkAllColors(old(cells), ps);
    }

    /** Writes the pairs in order, so a later pair wins over an earlier one at the same place. */
    method SetCells(jewelPositions: seq<(Position, Jewel)>)
      requires Valid()
      requires forall k :: 0 <= k < |jewelPositions| ==> IsValidSpace(jewelPositions[k].0)
      modifies this
      ensures Valid()
      ensures StoredIn(old(cells), StoragePairs(jewelPositions))
      ensures cells == SetAll(old(cells), StoragePairs(jewelPositions))
    {
      var k := 0;
      while k < |jewelPositions|
        invariant 0 <= k <= |jewelPositions| && Valid()
        invariant StoredIn(old(cells), StoragePairs(jewelPositions[..k]))
        invariant cells == SetAll(old(cells), StoragePairs(jewelPositions[..k]))
      {
        assert StoragePairs(jewelPositions[..k + 1])[..k] == StoragePairs(jewelPositions[..k]);
        SetCell(jewelPositions[k].0, jewelPositions[k].1);
        k := k + 1;
      }
      assert jewelPositions[..k] == jewelPositions;
    }

    /** `count_empty_spaces_underneath`: the number of empty cells directly below `pos`,
        stopping at the first jewel or at the bottom. */
    method CountEmptySpacesUnderneath(pos: Position) returns (count: nat)
      requires Valid() && IsValidSpace(pos)
      ensures pos.row + FallerLength + count <= rows
      ensures forall i :: pos.row + FallerLength <= i < pos.row + FallerLength + count ==> cells[i][pos.col].color == 0
      ensures pos.row + FallerLength + count == rows || cells[pos.row + FallerLength + count][pos.col].color != 0
      ensures count == EmptyRunFrom(Column(cells, pos.col), pos.row + FallerLength)
    {
      var col := Column(cells, pos.col);
      count := 0;
      var i := pos.row + FallerLength;
      while i < rows
        invariant pos.row + FallerLength <= i <= rows && count == i - (pos.row + FallerLength)
        invariant EmptyRunFrom(col, pos.row + FallerLength) == count + EmptyRunFrom(col, i)
      {
        if cells[i][pos.col].color == 0 {
          count := count + 1;
        } else {
          return;
        }
        i := i + 1;
      }
    }

    /** `fill`: for every visible cell, bottom row first, the colour is written at the bottom of
        the empty run below that cell. Only colours change. */
    method Fill(contents: ColorGrid)
      requires Valid() && Shaped(contents, VisibleRows(), cols)
      modifies this
      ensures Valid()
      ensures cells == FillGrid(old(cells), contents)
    {
      var g0 := cells;
      var i := |contents|;
      while i > 0
        invariant 0 <= i <= |contents| && Valid()
        invariant FilledFrom(cells, g0, contents, cols, cols, i, i)
      {
        i := i - 1;
        FillRow(g0, contents, i);
      }
      FillByColumns(cells, g0, contents, cols);
    }

    /** One pass of the inner loop of `fill`: visible row `i`, left to right. */
    method FillRow(ghost g0: Grid, contents: ColorGrid, i: nat)
      requires Valid() && i < |contents| && FilledFrom(cells, g0, contents, cols, cols, i + 1, i + 1)
      modifies this
      ensures Valid() && FilledFrom(cells, g0, contents, cols, cols, i, i)
    {
      var j := 0;
      while j < |contents[i]|
        invariant 0 <= j <= cols && Valid()
        invariant FilledFrom(cells, g0, contents, cols, j, i, i + 1)
      {
        var rowFromGravity := i;
        var below := CountEmptySpacesUnderneath(Position(i, j));
        rowFromGravity := rowFromGravity + below;
        var t := rowFromGravity + FallerLength - 1;
        ghost var before: Grid := cells;
        FillWriteStep(before, g0, contents, cols, i, j, t);
        cells := cells[t := cells[t][j := cells[t][j].(color := contents[i][j])]];
        assert cells == WriteColor(before, t, j, contents[i][j]);
        j := j + 1;
      }
    }

    /** `apply_gravity`: every cell, bottom row first, drops by the room below it, leaving a
        fresh empty cell behind. */
    method ApplyGravity()
      requires Valid()
      modifies this
      ensures Valid()
      ensures cells == Gravity(old(cells))
    {
      var g0 := cells;
      var i := |cells|;
      while i > 0
        invariant 0 <= i <= rows && Valid()
        invariant SettledTo(cells, g0, cols, cols, i, i)
      {
        i := i - 1;
        GravityRow(g0, i);
      }
      GravityByColumns(cells, g0, cols);
    }

    /** One pass of the inner loop of `apply_gravity`: storage row `i`, left to right. */
    method GravityRow(ghost g0: Grid, i: nat)
      requires Valid() && i < rows && SettledTo(cells, g0, cols, cols, i + 1, i + 1)
      modifies this
      ensures Valid() && SettledTo(cells, g0, cols, cols, i, i)
    {
      var j := 0;
      while j < |cells[i]|
        invariant 0 <= j <= cols && Valid()
        invariant SettledTo(cells, g0, cols, j, i, i + 1)
      {
        var jewel := cells[i][j];
        var pos := Position(i - (FallerLength - 1), j);
        var rowFromGravity := i;
        ghost var before: Grid := cells;
        var emptySpaces := CountEmptySpacesUnderneath(pos);
        rowFromGravity := rowFromGravity + emptySpaces;
        GravityWriteStep(before, g0, cols, i, j, rowFromGravity);
        if emptySpaces > 0 {
          cells := cells[rowFromGravity := cells[rowFromGravity][j := jewel]];
          cells := cells[i := cells[i][j := Empty]];
        }
        assert cells == MoveDown(before, i, j, rowFromGravity);
        j := j + 1;
      }
    }
  }

  /** Every pair addresses a stored cell, and the grid is rectangular. */
  predicate StoredIn(g: Grid, pairs: seq<(Position, Jewel)>)
  {
    (forall k :: 0 <= k < |pairs| ==> InGrid(g, pairs[k].0)) && Shaped(g, |g|, Width(g))
  }

  /** Visible positions of the pairs turned into storage positions. */
  function StoragePairs(ps: seq<(Position, Jewel)>): (r: seq<(Position, Jewel)>)
    ensures |r| == |ps|
    ensures forall k :: 0 <= k < |ps| ==> r[k] == (Storage(ps[k].0), ps[k].1)
  {
    seq(|ps|, k requires 0 <= k < |ps| => (Storage(ps[k].0), ps[k].1))
  }
}
