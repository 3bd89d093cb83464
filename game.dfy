/** The game: a field, the current faller and, while the faller is on the field, the visible
    position of its bottom jewel (the anchor). Time passes in ticks; the player drops, rotates
    and moves the faller between ticks. */
module Game {
  import opened Jewels
  import opened Grids
  import opened Settling
  import opened Fields
  import opened Fallers
  import opened Matching
  import opened Moves

  /** How an operation ends: normally, with a usage error (`GameRuleError`), or with the end of
      the game (`GameOver`). */
  datatype Status = Ok | RuleError | GameOver

  datatype Option<T> = None | Some(value: T)

  /** One row of `fill_field`'s contents: `cols` colours in `0 .. TotalColors - 1`. */
  predicate RowOk(row: seq<int>, cols: int)
  {
    |row| == cols && forall j :: 0 <= j < |row| ==> 0 <= row[j] < TotalColors
  }

  /** The contents `fill_field` accepts for a field of `rows` visible rows and `cols` columns. */
  predicate ValidContents(contents: seq<seq<int>>, rows: int, cols: int)
  {
    |contents| == rows && forall i :: 0 <= i < |contents| ==> RowOk(contents[i], cols)
  }

  /** Accepted contents read as colours. */
  function ToColors(contents: seq<seq<int>>): (cc: ColorGrid)
    requires forall i, j :: 0 <= i < |contents| && 0 <= j < |contents[i]| ==> 0 <= contents[i][j] < TotalColors
    ensures |cc| == |contents| && forall i :: 0 <= i < |cc| ==> |cc[i]| == |contents[i]|
    ensures forall i, j :: 0 <= i < |cc| && 0 <= j < |cc[i]| ==> cc[i][j] == contents[i][j]
  {
    seq(|contents|, i requires 0 <= i < |contents| =>
      seq(|contents[i]|, j requires 0 <= j < |contents[i]| => contents[i][j] as Color))
  }

  /** Rows `from` to `from + k - 1` of column `c` are empty, and the row after them is occupied
      or past the bottom. */
  ghost predicate EmptyStretch(g: Grid, c: int, from: int, k: int)
    requires Rect(g) && 0 <= c < Width(g) && 0 <= from
  {
    0 <= k && from + k <= |g| &&
    (forall i :: from <= i < from + k ==> g[i][c].color == 0) &&
    (from + k == |g| || g[from + k][c].color != 0)
  }

  /** `count_empty_spaces_underneath(a)`: the room below a faller whose anchor is `a`. */
  function RoomBelow(g: Grid, a: Position): (k: nat)
    requires Rect(g) && 0 <= a.col < Width(g) && -FallerLength <= a.row && a.row + FallerLength <= |g|
    ensures EmptyStretch(g, a.col, a.row + FallerLength, k)
  {
    EmptyRunFrom(Column(g, a.col), a.row + FallerLength)
  }

  /** The room below a faller depends only on the colours below it. */
  lemma RoomBelowSame(g: Grid, h: Grid, a: Position)
    requires Rect(g) && Rect(h) && |g| == |h| && Width(g) == Width(h)
    requires 0 <= a.col < Width(g) && -FallerLength <= a.row && a.row + FallerLength <= |g|
    requires forall i :: a.row + FallerLength <= i < |g| ==> g[i][a.col].color == h[i][a.col].color
    ensures RoomBelow(g, a) == RoomBelow(h, a)
  {
    EmptyRunSame(Column(g, a.col), Column(h, a.col), a.row + FallerLength);
  }

  /** A faller that moved one row down has one cell less of room. */
  lemma DescendRoom(g: Grid, a: Position, js: seq<Jewel>)
    requires Rect(g) && 0 <= a.row && a.row + FallerLength < |g| && 0 <= a.col < Width(g)
    requires |js| == FallerLength && RoomBelow(g, a) > 0
    ensures RoomBelow(Descended(g, a.row, a.col, js), Position(a.row + 1, a.col)) == RoomBelow(g, a) - 1
  {
    var moved := Descended(g, a.row, a.col, js);
    var below := Position(a.row + 1, a.col);
    RoomBelowSame(moved, g, below);
    assert Column(g, a.col)[a.row + FallerLength].color == 0;
  }

  /** What an operation leaves behind: its status, the grid, the faller's jewels and the anchor. */
  datatype Outcome = Outcome(status: Status, cells: Grid, jewels: seq<Jewel>, anchor: Option<Position>)

  /** A tick with the faller `js` on the field at anchor `a`, as `move_faller_down` does it:
      with room below, the faller moves one row down and is landed or set falling by the room
      left; without room, it freezes, the search marks the runs, and the game ends when no cell
      is matched and a hidden cell holds a jewel (the anchor then stays where it was). */
  function FallerTick(g: Grid, js: seq<Jewel>, a: Position): (o: Outcome)
    requires Rect(g) && 0 <= a.row && a.row + FallerLength <= |g| && 0 <= a.col < Width(g)
    requires |js| == FallerLength
    ensures Shaped(o.cells, |g|, Width(g)) && |o.jewels| == FallerLength
    ensures o.status != RuleError
    ensures o.anchor.Some? ==> o.anchor.value.col == a.col
    ensures o.status == GameOver ==> o.anchor == Some(a)
  {
    var room := RoomBelow(g, a);
    if room > 0 then TickDown(g, js, a, room) else TickFreeze(g, js, a)
  }

  /** The tick with `room` empty cells below the faller: it moves one row down and lands when
      no room is left after the move. */
  function TickDown(g: Grid, js: seq<Jewel>, a: Position, room: int): (o: Outcome)
    requires Rect(g) && 0 <= a.row && a.row + FallerLength < |g| && 0 <= a.col < Width(g)
    requires |js| == FallerLength && room > 0
    ensures Shaped(o.cells, |g|, Width(g)) && |o.jewels| == FallerLength
    ensures o.status == Ok && o.anchor == Some(Position(a.row + 1, a.col))
    ensures forall t :: 0 <= t < FallerLength ==> o.jewels[t].color == js[t].color
  {
    var landed := AfterLanding(js, room - 1);
    Outcome(Ok, WithFaller(Descended(g, a.row, a.col, js), a.row + 1, a.col, landed), landed,
            Some(Position(a.row + 1, a.col)))
  }

  /** The tick with no room below the faller: it freezes in place and the search runs. */
  function TickFreeze(g: Grid, js: seq<Jewel>, a: Position): (o: Outcome)
    requires Rect(g) && 0 <= a.row && a.row + FallerLength <= |g| && 0 <= a.col < Width(g)
    requires |js| == FallerLength
    ensures Shaped(o.cells, |g|, Width(g)) && |o.jewels| == FallerLength
    ensures o.status != RuleError && (o.status == Ok <==> o.anchor.None?)
    ensures o.status == GameOver ==> o.anchor == Some(a)
  {
    var marked := MarkRuns(WithFaller(g, a.row, a.col, WithState(js, Frozen)));
    Outcome(if Fits(marked) then Ok else GameOver, marked, CellsDown(marked, a.row, a.col),
            if Fits(marked) then None else Some(a))
  }

  /** `move_faller_column` on the faller `js` at anchor `a`, towards column `c2`: when the three
      cells of column `c2` beside the faller exist and are empty, the faller moves there and is
      landed or set falling by the room below it; otherwise nothing changes. */
  function ColumnMove(g: Grid, js: seq<Jewel>, a: Position, c2: int): (o: Outcome)
    requires Rect(g) && 0 <= a.row && a.row + FallerLength <= |g| && 0 <= a.col < Width(g)
    requires |js| == FallerLength && c2 != a.col
    ensures Shaped(o.cells, |g|, Width(g)) && |o.jewels| == FallerLength && o.status == Ok
    ensures o.anchor.Some? && o.anchor.value.row == a.row
    ensures o.anchor.value.col == a.col || o.anchor.value.col == c2
    ensures o.anchor.value.col == a.col ==> o.cells == g && o.jewels == js
  {
    if ShiftAllowed(g, a.row, c2) then
      var b := Position(a.row, c2);
      var landed := AfterLanding(js, RoomBelow(g, b));
      Outcome(Ok, WithFaller(Shifted(g, a.row, a.col, c2, js), a.row, c2, landed), landed, Some(b))
    else
      Outcome(Ok, g, js, Some(a))
  }

  /** A sideways move either changes nothing, when a target cell is outside the field or
      occupied, or puts the faller's jewels (colours kept) into the target column, leaves fresh
      empty cells where they were, changes no other cell, and lands the faller exactly when the
      new column has no room below it. */
  lemma ColumnMoveFacts(g: Grid, js: seq<Jewel>, a: Position, c2: int)
    requires Rect(g) && 0 <= a.row && a.row + FallerLength <= |g| && 0 <= a.col < Width(g)
    requires |js| == FallerLength && c2 != a.col
    ensures var o := ColumnMove(g, js, a, c2);
      (!ShiftAllowed(g, a.row, c2) ==> o.cells == g && o.jewels == js && o.anchor == Some(a)) &&
      (ShiftAllowed(g, a.row, c2) ==>
        o.anchor == Some(Position(a.row, c2)) && MovedOver(g, o.cells, a.row, a.col, c2, o.jewels) &&
        (forall t :: 0 <= t < FallerLength ==> o.jewels[t].color == js[t].color) &&
        (o.jewels[0].state == js[0].state ==> o.jewels == js) &&
        (o.jewels[0].state != js[0].state ==> o.jewels == WithState(js, o.jewels[0].state)) &&
        (js[0].state in {Falling, Landed} ==> (o.jewels[0].state == Landed <==> RoomBelow(g, Position(a.row, c2)) == 0)))
  {
    if ShiftAllowed(g, a.row, c2) {
      var b := Position(a.row, c2);
      var landed := AfterLanding(js, RoomBelow(g, b));
      var cells := WithFaller(Shifted(g, a.row, a.col, c2, js), a.row, c2, landed);
      assert ColumnMove(g, js, a, c2) == Outcome(Ok, cells, landed, Some(b));
      ShiftedPlaced(g, a.row, a.col, c2, js, landed);
    }
  }

  /** A tick with room below moves the faller one row down: its jewels keep their colours, its
      old top cell is left empty, no other cell changes, and it lands exactly when it reaches the
      bottom of its room. */
  lemma FallerTickDescends(g: Grid, js: seq<Jewel>, a: Position)
    requires Rect(g) && 0 <= a.row && a.row + FallerLength <= |g| && 0 <= a.col < Width(g)
    requires |js| == FallerLength && RoomBelow(g, a) > 0
    ensures var o := FallerTick(g, js, a);
      o.status == Ok && o.anchor == Some(Position(a.row + 1, a.col)) &&
      o.cells[a.row][a.col] == Empty &&
      (forall t :: 0 <= t < FallerLength ==>
        o.cells[a.row + 1 + t][a.col] == o.jewels[t] && o.jewels[t].color == js[t].color) &&
      (forall i, j :: 0 <= i < |g| && 0 <= j < Width(g) && (j != a.col || i < a.row || i > a.row + FallerLength) ==>
        o.cells[i][j] == g[i][j]) &&
      (o.jewels[0].state == js[0].state ==> o.jewels == js) &&
      (o.jewels[0].state != js[0].state ==> o.jewels == WithState(js, o.jewels[0].state)) &&
      (js[0].state in {Falling, Landed} ==> (o.jewels[0].state == Landed <==> RoomBelow(g, a) == 1))
  {
    TickIsDown(g, js, a);
    TickDownMoves(g, js, a, RoomBelow(g, a));
  }

  /** The descent with `room` empty cells below, cell by cell. */
  lemma TickDownMoves(g: Grid, js: seq<Jewel>, a: Position, room: int)
    requires Rect(g) && 0 <= a.row && a.row + FallerLength < |g| && 0 <= a.col < Width(g)
    requires |js| == FallerLength && room > 0
    ensures var o := TickDown(g, js, a, room);
      o.status == Ok && o.anchor == Some(Position(a.row + 1, a.col)) &&
      o.cells[a.row][a.col] == Empty &&
      (forall t :: 0 <= t < FallerLength ==>
        o.cells[a.row + 1 + t][a.col] == o.jewels[t] && o.jewels[t].color == js[t].color) &&
      (forall i, j :: 0 <= i < |g| && 0 <= j < Width(g) && (j != a.col || i < a.row || i > a.row + FallerLength) ==>
        o.cells[i][j] == g[i][j]) &&
      (o.jewels[0].state == js[0].state ==> o.jewels == js) &&
      (o.jewels[0].state != js[0].state ==> o.jewels == WithState(js, o.jewels[0].state)) &&
      (js[0].state in {Falling, Landed} ==> (o.jewels[0].state == Landed <==> room == 1))
  {
    var moved := Descended(g, a.row, a.col, js);
    var landed := AfterLanding(js, room - 1);
    var cells := WithFaller(moved, a.row + 1, a.col, landed);
    forall i | a.row + 1 <= i < a.row + 1 + FallerLength
      ensures cells[i][a.col] == landed[i - a.row - 1]
    {
      assert |moved[i]| == Width(g);
    }
  }

  /** A tick without room freezes the faller in place (colours unchanged), marks the runs, and
      ends the game exactly when no cell is matched and a hidden cell holds a jewel. */
  lemma FallerTickFreezes(g: Grid, js: seq<Jewel>, a: Position)
    requires Rect(g) && 0 <= a.row && a.row + FallerLength <= |g| && 0 <= a.col < Width(g)
    requires |js| == FallerLength && RoomBelow(g, a) == 0
    ensures var o := FallerTick(g, js, a);
      o.cells == MarkRuns(WithFaller(g, a.row, a.col, WithState(js, Frozen))) &&
      (o.status == Ok || o.status == GameOver) &&
      (o.status == GameOver <==> !AnyMatched(o.cells) && !HiddenRowsEmpty(o.cells)) &&
      (o.status == Ok <==> o.anchor == None) && (o.status == GameOver ==> o.anchor == Some(a)) &&
      Colors(o.cells) == Colors(WithFaller(g, a.row, a.col, js)) &&
      (forall t :: 0 <= t < FallerLength ==>
        o.jewels[t] == o.cells[a.row + t][a.col] && o.jewels[t].state in {Frozen, Matched})
  {
    assert FallerTick(g, js, a) == TickFreeze(g, js, a);
    TickFreezeFacts(g, js, a);
  }

  /** Freezing and searching, cell by cell. */
  lemma TickFreezeFacts(g: Grid, js: seq<Jewel>, a: Position)
    requires Rect(g) && 0 <= a.row && a.row + FallerLength <= |g| && 0 <= a.col < Width(g)
    requires |js| == FallerLength
    ensures var o := TickFreeze(g, js, a);
      (o.status == Ok || o.status == GameOver) &&
      (o.status == GameOver <==> !AnyMatched(o.cells) && !HiddenRowsEmpty(o.cells)) &&
      (o.status == Ok <==> o.anchor == None) && (o.status == GameOver ==> o.anchor == Some(a)) &&
      Colors(o.cells) == Colors(WithFaller(g, a.row, a.col, js)) &&
      (forall t :: 0 <= t < FallerLength ==>
        o.jewels[t] == o.cells[a.row + t][a.col] && o.jewels[t].state in {Frozen, Matched})
  {
    TickFreezeStatus(g, js, a);
    TickFreezeJewels(g, js, a);
    TickFreezeColors(g, js, a);
  }

  /** Freezing ends the game exactly when the search matched nothing and a hidden cell is full. */
  lemma TickFreezeStatus(g: Grid, js: seq<Jewel>, a: Position)
    requires Rect(g) && 0 <= a.row && a.row + FallerLength <= |g| && 0 <= a.col < Width(g)
    requires |js| == FallerLength
    ensures var o := TickFreeze(g, js, a);
      (o.status == Ok || o.status == GameOver) &&
      (o.status == GameOver <==> !AnyMatched(o.cells) && !HiddenRowsEmpty(o.cells)) &&
      (o.status == Ok <==> o.anchor == None) && (o.status == GameOver ==> o.anchor == Some(a))
  {
  }

  /** After freezing, the faller's jewels are the frozen or matched cells of its column. */
  lemma TickFreezeJewels(g: Grid, js: seq<Jewel>, a: Position)
    requires Rect(g) && 0 <= a.row && a.row + FallerLength <= |g| && 0 <= a.col < Width(g)
    requires |js| == FallerLength
    ensures var o := TickFreeze(g, js, a);
      forall t :: 0 <= t < FallerLength ==>
        o.jewels[t] == o.cells[a.row + t][a.col] && o.jewels[t].state in {Frozen, Matched}
  {
    var marked := MarkRuns(WithFaller(g, a.row, a.col, WithState(js, Frozen)));
    FrozenMarked(g, js, a);
    assert TickFreeze(g, js, a).cells == marked && TickFreeze(g, js, a).jewels == CellsDown(marked, a.row, a.col);
  }

  /** Freezing and searching keep the colours. */
  lemma TickFreezeColors(g: Grid, js: seq<Jewel>, a: Position)
    requires Rect(g) && 0 <= a.row && a.row + FallerLength <= |g| && 0 <= a.col < Width(g)
    requires |js| == FallerLength
    ensures Colors(TickFreeze(g, js, a).cells) == Colors(WithFaller(g, a.row, a.col, js))
  {
    FrozenMarked(g, js, a);
  }

  /** The search after freezing the faller keeps the colours, and leaves the faller's cells
      frozen or matched. */
  lemma FrozenMarked(g: Grid, js: seq<Jewel>, a: Position)
    requires Rect(g) && 0 <= a.row && a.row + FallerLength <= |g| && 0 <= a.col < Width(g)
    requires |js| == FallerLength
    ensures var marked := MarkRuns(WithFaller(g, a.row, a.col, WithState(js, Frozen)));
      Colors(marked) == Colors(WithFaller(g, a.row, a.col, js)) &&
      forall t :: 0 <= t < FallerLength ==> CellsDown(marked, a.row, a.col)[t].state in {Frozen, Matched}
  {
    var frozen := WithFaller(g, a.row, a.col, WithState(js, Frozen));
    var marked := MarkRuns(frozen);
    ColorsKeptBy(marked, frozen);
    WithFallerColors(g, a.row, a.col, WithState(js, Frozen), js);
    forall t | 0 <= t < FallerLength
      ensures CellsDown(marked, a.row, a.col)[t].state in {Frozen, Matched}
    {
      assert |g[a.row + t]| == Width(g);
    }
  }

  /** With room below, the tick is the descent. */
  lemma TickIsDown(g: Grid, js: seq<Jewel>, a: Position)
    requires Rect(g) && 0 <= a.row && a.row + FallerLength <= |g| && 0 <= a.col < Width(g)
    requires |js| == FallerLength && RoomBelow(g, a) > 0
    ensures a.row + FallerLength < |g| && FallerTick(g, js, a) == TickDown(g, js, a, RoomBelow(g, a))
  {
  }

  /** The descent, given the grid after the move and the landing. */
  lemma TickDownIs(g: Grid, js: seq<Jewel>, a: Position, room: int, landed: seq<Jewel>, cells: Grid)
    requires Rect(g) && 0 <= a.row && a.row + FallerLength < |g| && 0 <= a.col < Width(g)
    requires |js| == FallerLength && room > 0
    requires landed == AfterLanding(js, room - 1)
    requires cells == WithFaller(Descended(g, a.row, a.col, js), a.row + 1, a.col, landed)
    ensures TickDown(g, js, a, room) == Outcome(Ok, cells, landed, Some(Position(a.row + 1, a.col)))
  {
  }

  /** `FallerTick` with room below, given the grid after the descent and the landing. */
  lemma TickWithRoom(g: Grid, js: seq<Jewel>, a: Position, moved: Grid, landed: seq<Jewel>, cells: Grid)
    requires Rect(g) && 0 <= a.row && a.row + FallerLength < |g| && 0 <= a.col < Width(g)
    requires |js| == FallerLength && RoomBelow(g, a) > 0
    requires moved == Descended(g, a.row, a.col, js)
    requires landed == AfterLanding(js, RoomBelow(moved, Position(a.row + 1, a.col)))
    requires cells == WithFaller(moved, a.row + 1, a.col, landed)
    ensures FallerTick(g, js, a) == Outcome(Ok, cells, landed, Some(Position(a.row + 1, a.col)))
  {
    DescendRoom(g, a, js);
    TickDownIs(g, js, a, RoomBelow(g, a), landed, cells);
    TickIsDown(g, js, a);
  }

  /** `FallerTick` without room below, given the grid with the frozen faller and the grid the
      search leaves. */
  lemma TickWithoutRoom(g: Grid, js: seq<Jewel>, a: Position, frozen: Grid, marked: Grid)
    requires Rect(g) && 0 <= a.row && a.row + FallerLength <= |g| && 0 <= a.col < Width(g)
    requires |js| == FallerLength && RoomBelow(g, a) == 0
    requires frozen == WithFaller(g, a.row, a.col, WithState(js, Frozen))
    requires marked == MarkRuns(frozen)
    ensures FallerTick(g, js, a) ==
      Outcome(if Fits(marked) then Ok else GameOver, marked, CellsDown(marked, a.row, a.col),
              if Fits(marked) then None else Some(a))
  {
    assert FallerTick(g, js, a) == TickFreeze(g, js, a);
  }

  /** A tick with no faller on the field: matched jewels disappear, the rest fall, the search
      marks the runs this makes, and the game ends when no cell is matched and a hidden cell
      holds a jewel. */
  function BoardTick(g: Grid): (o: (Status, Grid))
    requires Rect(g) && |g| > 0
    ensures Shaped(o.1, |g|, Width(g))
    ensures o.0 == Ok || o.0 == GameOver
    ensures o.0 == GameOver <==> !AnyMatched(o.1) && !HiddenRowsEmpty(o.1)
    ensures o.1 == MarkRuns(Gravity(Eliminate(g)))
    ensures Colors(o.1) == Colors(Gravity(Eliminate(g)))
    ensures forall i, k, j :: 0 <= i < k < |g| && 0 <= j < Width(g) && o.1[i][j].color != 0 ==>
      o.1[k][j].color != 0
  {
    var settled := Gravity(Eliminate(g));
    GravitySettles(Eliminate(g));
    var marked := MarkRuns(settled);
    ColorsKeptBy(marked, settled);
    (if Fits(marked) then Ok else GameOver, marked)
  }

  /** The cells before `(i, j)` in row-major order are as `eliminate_matches` leaves them. */
  ghost predicate EliminatedBefore(g: Grid, g0: Grid, i: int, j: int)
  {
    |g| == |g0| && (forall r :: 0 <= r < |g0| ==> |g[r]| == |g0[r]|) &&
    forall r, c :: 0 <= r < |g0| && 0 <= c < |g0[r]| ==>
      g[r][c] == if (r < i || (r == i && c < j)) && g0[r][c].state == Matched then Empty else g0[r][c]
  }

  class GameState {
    const field: Field
    /** The current faller, on the field or waiting to be dropped. */
    var faller: Faller
    /** The visible position of the faller's bottom jewel while it is on the field. */
    var anchor: Option<Position>

    /** While the faller is on the field its jewels are the three cells above and at the anchor;
        the source shares the jewel objects, the model keeps the two copies equal. */
    ghost predicate Valid()
      reads this, field, faller
    {
      field.Valid() && faller.Valid() && field.VisibleRows() >= MinRows && field.cols >= MinCols &&
      (anchor.Some? ==>
        0 <= anchor.value.row < field.VisibleRows() && 0 <= anchor.value.col < field.cols &&
        faller.jewels == field.FallerCells(anchor.value))
    }

    /** A game on an empty field, with a faller of the given colours waiting to be dropped. */
    constructor (rows: int, cols: int, colors: seq<int>)
      requires rows >= MinRows && cols >= MinCols
      requires |colors| == FallerLength && forall i :: 0 <= i < |colors| ==> IsJewelColor(colors[i])
      ensures Valid() && anchor == None && fresh(field) && fresh(faller)
      ensures field.VisibleRows() == rows && field.cols == cols
      ensures forall i, j :: 0 <= i < field.rows && 0 <= j < cols ==> field.cells[i][j] == Empty
      ensures forall i :: 0 <= i < FallerLength ==> faller.jewels[i].color == colors[i] && faller.jewels[i].state == Falling
    {
      field := new Field(rows, cols);
      faller := new Faller(colors);
      anchor := None;
    }

    /** The constructor's check: a field needs at least `MinRows` rows and `MinCols` columns. */
    static method Create(rows: int, cols: int, colors: seq<int>) returns (status: Status, game: GameState?)
      requires |colors| == FallerLength && forall i :: 0 <= i < |colors| ==> IsJewelColor(colors[i])
      ensures status == Ok || status == RuleError
      ensures status == Ok <==> rows >= MinRows && cols >= MinCols
      ensures status == RuleError ==> game == null
      ensures status == Ok ==>
        (game != null && fresh(game) && game.Valid() && game.anchor == None &&
         game.field.VisibleRows() == rows && game.field.cols == cols &&
         (forall i, j :: 0 <= i < game.field.rows && 0 <= j < cols ==> game.field.cells[i][j] == Empty) &&
         (forall i :: 0 <= i < FallerLength ==>
            game.faller.jewels[i].color == colors[i] && game.faller.jewels[i].state == Falling))
    {
      if rows >= MinRows && cols >= MinCols {
        game := new GameState(rows, cols, colors);
        status := Ok;
      } else {
        game := null;
        status := RuleError;
      }
    }

    // ------------------------------------------------------------ scans of the board

    method MatchExists() returns (found: bool)
      requires field.Valid()
      ensures found <==> AnyMatched(field.cells)
    {
      var i := 0;
      while i < field.rows
        invariant 0 <= i <= field.rows
        invariant forall r, c :: 0 <= r < i && 0 <= c < field.cols ==> field.cells[r][c].state != Matched
      {
        var j := 0;
        while j < field.cols
          invariant 0 <= j <= field.cols
          invariant forall c :: 0 <= c < j ==> field.cells[i][c].state != Matched
        {
          if field.cells[i][j].state == Matched {
            return true;
          }
          j := j + 1;
        }
        i := i + 1;
      }
      return false;
    }

    method InvisibleRowsAreEmpty() returns (empty: bool)
      requires field.Valid()
      ensures empty <==> HiddenRowsEmpty(field.cells)
    {
      var i := 0;
      while i < FallerLength - 1
        invariant 0 <= i <= Hidden
        invariant forall r, c :: 0 <= r < i && 0 <= c < field.cols ==> field.cells[r][c].color == 0
      {
        var j := 0;
        while j < field.cols
          invariant 0 <= j <= field.cols
          invariant forall c :: 0 <= c < j ==> field.cells[i][c].color == 0
        {
          if field.cells[i][j].color != 0 {
            return false;
          }
          j := j + 1;
        }
        i := i + 1;
      }
      return true;
    }

    /** The game may go on while a cascade is pending or nothing sticks out above the field. */
    method CheckIfFallerFits() returns (fits: bool)
      requires field.Valid()
      ensures fits <==> Fits(field.cells)
    {
      var matched := MatchExists();
      if !matched {
        fits := InvisibleRowsAreEmpty();
      } else {
        fits := true;
      }
    }

    method EliminateMatches()
      requires field.Valid()
      modifies field
      ensures field.Valid() && field.cells == Eliminate(old(field.cells))
    {
      ghost var g0 := field.cells;
      var i := 0;
      while i < field.rows
        invariant 0 <= i <= field.rows && field.Valid()
        invariant EliminatedBefore(field.cells, g0, i, 0)
      {
        var j := 0;
        while j < field.cols
          invariant 0 <= j <= field.cols && field.Valid()
          invariant EliminatedBefore(field.cells, g0, i, j)
        {
          if field.cells[i][j].state == Matched {
            field.Store(Position(i, j), Empty);
          }
          j := j + 1;
        }
        i := i + 1;
      }
      GridExt(field.cells, Eliminate(g0));
    }

    // ------------------------------------------------------------ the match search

    /** The positions of every cell of colour `color`, in row-major storage order. */
    method GetAllJewelsOf(color: Color) returns (positions: seq<Position>)
      requires field.Valid()
      ensures positions == CellsOf(Colors(field.cells), color, |field.cells|, 0)
      ensures ColorList(Colors(field.cells), color, positions)
    {
      var cells := field.cells;
      ghost var cg := Colors(cells);
      positions := [];
      var i := 0;
      while i < |cells|
        invariant 0 <= i <= |cells| && positions == CellsOf(cg, color, i, 0)
      {
        var j := 0;
        while j < |cells[i]|
          invariant 0 <= j <= |cells[i]| && positions == CellsOf(cg, color, i, j)
        {
          if cells[i][j].color == color {
            positions := positions + [Position(i, j)];
          }
          j := j + 1;
        }
        i := i + 1;
      }
      CellsOfListed(cg, color, |cg|, 0);
    }

    /** The walk from `current` along `delta` through `posJewels`, the cells of its colour after
        it: a cell joins while the step from the last joined cell is `delta`, and the chain is
        matched when it has `MinMatchLength` cells. */
    method GetMatchesForDelta(delta: Delta, posJewels: seq<Position>, current: Position)
      requires field.Valid() && SortedAfter(Colors(field.cells), current, posJewels)
      modifies field
      ensures field.Valid() && Colors(field.cells) == Colors(old(field.cells))
      ensures field.cells == MarkChain(old(field.cells), Chain(Colors(old(field.cells)), delta, current))
    {
      var aligned := AlignedAlong(Colors(field.cells), delta, posJewels, current);
      if |aligned| >= MinMatchLength {
        field.MarkCells(aligned);
      }
    }

    /** The walk of the search along `delta`: starting from `current`, each listed cell that lies
        one `delta` past the last collected cell is collected in turn. */
    static method AlignedAlong(ghost cg: ColorGrid, delta: Delta, posJewels: seq<Position>, current: Position)
      returns (aligned: seq<Position>)
      requires SortedAfter(cg, current, posJewels)
      ensures aligned == Chain(cg, delta, current)
      ensures forall t :: 0 <= t < |aligned| ==> InGrid(cg, aligned[t])
    {
      var deltas := [delta];
      aligned := [current];
      var previousPos := current;
      var i := 0;
      while i < |posJewels|
        invariant 0 <= i <= |posJewels|
        invariant |deltas| >= 1 && forall x :: 0 <= x < |deltas| ==> deltas[x] == delta
        invariant aligned + Walk(delta, previousPos, posJewels[i..]) == [current] + Walk(delta, current, posJewels)
      {
        var nextPos := posJewels[i];
        var d := DeltaOfPositions(previousPos, nextPos);
        assert posJewels[i..][1..] == posJewels[i + 1..];
        if EqualsAll(deltas, d) {
          deltas := deltas + [d];
        }
        if EqualsAll(deltas, d) {
          aligned := aligned + [nextPos];
          previousPos := nextPos;
        }
        i := i + 1;
      }
      assert posJewels[0..] == posJewels;
      WalkIsChain(cg, current, delta, posJewels);
    }

    /** The eight walks the search makes from `current`, in the source's order of deltas. */
    method MatchesFrom(current: Position, rest: seq<Position>)
      requires field.Valid() && SortedAfter(Colors(field.cells), current, rest)
      modifies field
      ensures field.Valid() && Colors(field.cells) == Colors(old(field.cells))
      ensures field.cells == MarkFrom(old(field.cells), Colors(old(field.cells)), current)
    {
      ghost var g0 := field.cells;
      ghost var cg := Colors(g0);
      var n := 0;
      while n < |Deltas|
        invariant 0 <= n <= |Deltas|
        invariant field.Valid() && Colors(field.cells) == cg
        invariant field.cells == MarkChains(g0, cg, current, Deltas[..n])
      {
        GetMatchesForDelta(Deltas[n], rest, current);
        MarkChainsSnoc(g0, cg, current, Deltas, n);
        n := n + 1;
      }
      MarkChainsWhole(g0, cg, current, Deltas);
    }

    /** One round of the search: the walks from every cell of colour `color` except the last. */
    method SearchColor(ghost g0: Grid, color: Color)
      requires field.Valid() && Sound(g0, field.cells) && Colors(field.cells) == Colors(g0)
      requires 1 <= color && CoveredBelow(field.cells, Colors(g0), color)
      modifies field
      ensures field.Valid() && Sound(g0, field.cells) && Colors(field.cells) == Colors(g0)
      ensures CoveredBelow(field.cells, Colors(g0), color + 1)
    {
      ghost var cg := Colors(g0);
      var jewelPositions := GetAllJewelsOf(color);
      var count := 1;
      var k := 0;
      while k < |jewelPositions|
        invariant 0 <= k <= |jewelPositions| && count == k + 1
        invariant field.Valid() && Sound(g0, field.cells) && Colors(field.cells) == cg
        invariant CoveredBelow(field.cells, cg, color) && CoversAll(field.cells, cg, jewelPositions, k)
      {
        if count >= |jewelPositions| {
          break;
        }
        var start := count;
        ghost var before := field.cells;
        ColorListTail(cg, color, jewelPositions, k);
        MatchesFrom(jewelPositions[k], jewelPositions[start..]);
        MarkFromFacts(g0, before, jewelPositions[k]);
        CoversStep(before, field.cells, cg, color, jewelPositions, k);
        count := count + 1;
        k := k + 1;
      }
      if k < |jewelPositions| {
        LastCovered(field.cells, cg, color, jewelPositions);
      }
      ColorCovered(field.cells, cg, color, jewelPositions);
    }

    /** Marks every jewel that lies in a run of three or more of its colour along a row, a
        column or a diagonal, hidden rows included; nothing else changes. */
    method SearchForMatches()
      requires Valid()
      modifies field, faller
      ensures Valid()
      ensures field.cells == MarkRuns(old(field.cells))
      ensures anchor.None? ==> faller.jewels == old(faller.jewels)
    {
      ghost var g0 := field.cells;
      ghost var cg := Colors(g0);
      SoundStart(g0);
      var color := 1;
      while color < TotalColors
        modifies field
        invariant 1 <= color <= TotalColors
        invariant field.Valid() && Sound(g0, field.cells) && Colors(field.cells) == cg
        invariant CoveredBelow(field.cells, cg, color)
      {
        SearchColor(g0, color);
        color := color + 1;
      }
      RunsCovered(field.cells, cg);
      SoundAndCompleteIsMarkRuns(g0, field.cells);
      // the faller's jewels are cells of the field, marked with them
      SyncFaller();
    }

    /** Copies the faller's three cells back into the faller: in the source they are the same
        jewel objects, so a change to the cells is a change to the faller. */
    method SyncFaller()
      requires field.Valid() && faller.Valid() && field.VisibleRows() >= MinRows && field.cols >= MinCols
      requires anchor.Some? ==> 0 <= anchor.value.row < field.VisibleRows() && 0 <= anchor.value.col < field.cols
      modifies faller
      ensures Valid()
      ensures anchor.Some? ==> faller.jewels == field.FallerCells(anchor.value)
      ensures anchor.None? ==> faller.jewels == old(faller.jewels)
    {
      if anchor.Some? {
        faller.jewels := field.FallerCells(anchor.value);
      }
    }

    // ------------------------------------------------------------ seeding

    /** `fill_field`'s check of the contents, before anything changes. */
    method ValidateContents(contents: seq<seq<int>>) returns (valid: bool)
      requires field.Valid()
      ensures valid <==> ValidContents(contents, field.VisibleRows(), field.cols)
    {
      valid := true;
      if |contents| == field.VisibleRows() {
        var i := 0;
        while i < |contents|
          invariant 0 <= i <= |contents|
          invariant valid <==> forall r :: 0 <= r < i ==> RowOk(contents[r], field.cols)
        {
          var row := contents[i];
          if |row| == field.cols {
            var j := 0;
            while j < |row|
              invariant 0 <= j <= |row|
              invariant valid <==>
                (forall r :: 0 <= r < i ==> RowOk(contents[r], field.cols)) &&
                forall c :: 0 <= c < j ==> 0 <= row[c] < TotalColors
            {
              if !(0 <= row[j] < TotalColors) {
                valid := false;
                break;
              }
              j := j + 1;
            }
          } else {
            valid := false;
            break;
          }
          i := i + 1;
        }
      } else {
        valid := false;
      }
    }

    /** Seeds the field with `contents` (visible rows, colours only) and marks the runs. */
    method FillField(contents: seq<seq<int>>) returns (status: Status)
      requires Valid()
      modifies field, faller
      ensures Valid()
      ensures status == Ok || status == RuleError
      ensures status == Ok <==> ValidContents(contents, field.VisibleRows(), field.cols)
      ensures status == RuleError ==> field.cells == old(field.cells) && faller.jewels == old(faller.jewels)
      ensures ValidContents(contents, field.VisibleRows(), field.cols) ==>
        field.cells == MarkRuns(FillGrid(old(field.cells), ToColors(contents)))
      ensures anchor.None? ==> faller.jewels == old(faller.jewels)
    {
      var valid := ValidateContents(contents);
      if !valid {
        return RuleError;
      }
      field.Fill(ToColors(contents));
      // the faller's jewels are cells of the field, recoloured with them
      SyncFaller();
      SearchForMatches();
      status := Ok;
    }

    // ------------------------------------------------------------ the faller

    /** Writes the faller's jewels into its three cells. The source has no such step: there the
        faller's jewels are the very objects held in those cells. */
    method StoreFaller()
      requires field.Valid() && faller.Valid() && field.VisibleRows() >= MinRows && field.cols >= MinCols
      requires anchor.Some? && 0 <= anchor.value.row < field.VisibleRows() && 0 <= anchor.value.col < field.cols
      modifies field
      ensures Valid()
      ensures field.cells == WithFaller(old(field.cells), anchor.value.row, anchor.value.col, faller.jewels)
    {
      field.WriteFaller(anchor.value, faller.jewels);
      assert field.Valid() && faller.Valid();
      assert field.VisibleRows() >= MinRows && field.cols >= MinCols;
    }

    /** `check_faller_landing`: a falling faller with no room below lands, a landed faller with
        room below falls again; the result says whether there is no room. */
    method CheckFallerLanding() returns (landed: bool)
      requires Valid() && anchor.Some?
      modifies field, faller
      ensures Valid()
      ensures landed <==> RoomBelow(old(field.cells), anchor.value) == 0
      ensures faller.jewels == AfterLanding(old(faller.jewels), RoomBelow(old(field.cells), anchor.value))
      ensures field.cells == WithFaller(old(field.cells), anchor.value.row, anchor.value.col, faller.jewels)
    {
      var a := anchor.value;
      ghost var g0 := field.cells;
      ghost var js := faller.jewels;
      ghost var room := RoomBelow(g0, a);
      var emptySpaces := field.CountEmptySpacesUnderneath(a);
      assert emptySpaces == room;
      if emptySpaces <= 0 {
        if faller.State() == Falling {
          faller.Land();
        }
        landed := true;
      } else {
        if faller.State() == Landed {
          faller.Fall();
        }
        landed := false;
      }
      assert faller.jewels == AfterLanding(js, room);
      StoreFaller();
    }

    /** `update_faller`: a new faller, refused while one is on the field. */
    method UpdateFaller(colors: seq<int>) returns (status: Status)
      requires Valid()
      requires |colors| == FallerLength && forall i :: 0 <= i < |colors| ==> IsJewelColor(colors[i])
      modifies this
      ensures Valid() && anchor == old(anchor)
      ensures status == Ok || status == RuleError
      ensures status == RuleError <==> old(anchor).Some?
      ensures status == RuleError ==> faller == old(faller)
      ensures status == Ok ==>
        (fresh(faller) &&
         forall i :: 0 <= i < FallerLength ==> faller.jewels[i].color == colors[i] && faller.jewels[i].state == Falling)
    {
      if anchor.Some? {
        return RuleError;
      }
      faller := new Faller(colors);
      status := Ok;
    }

    /** The body of `drop_faller` once its checks pass: the faller's jewels go into the top of
        column `c`, the anchor is set and the faller lands or falls by the room below it. */
    method PlaceNew(c: int)
      requires Valid() && anchor.None? && 0 <= c < field.cols
      modifies this, field, faller
      ensures Valid() && faller == old(faller)
      ensures anchor == Some(Position(0, c))
      ensures faller.jewels == AfterLanding(old(faller.jewels), RoomBelow(old(field.cells), Position(0, c)))
      ensures field.cells == WithFaller(old(field.cells), 0, c, faller.jewels)
    {
      ghost var g0 := field.cells;
      ghost var js := faller.jewels;
      field.DropInto(c, faller.jewels);
      anchor := Some(Position(0, c));
      ghost var placed := field.cells;
      var landed := CheckFallerLanding();
      RoomBelowSame(placed, g0, Position(0, c));
      PlaceTwice(g0, 0, c, js, faller.jewels);
    }

    /** `drop_faller`: puts the faller at the top of column `col` (counted from 1), its bottom
        jewel at visible row 0 and the other two in the hidden rows. */
    method DropFaller(col: int) returns (status: Status)
      requires Valid()
      modifies this, field, faller
      ensures Valid() && faller == old(faller)
      ensures status == RuleError <==> old(anchor).Some? || col < 1 || col > field.cols
      ensures status == GameOver <==>
        old(anchor).None? && 1 <= col <= field.cols && old(field.cells)[Hidden][col - 1].color != 0
      ensures status != Ok ==>
        field.cells == old(field.cells) && anchor == old(anchor) && faller.jewels == old(faller.jewels)
      ensures status == Ok ==>
        anchor == Some(Position(0, col - 1)) &&
        faller.jewels == AfterLanding(old(faller.jewels), RoomBelow(old(field.cells), Position(0, col - 1))) &&
        field.cells == WithFaller(old(field.cells), 0, col - 1, faller.jewels)
    {
      if anchor.Some? {
        return RuleError;
      }
      if col < 1 || col > field.cols {
        return RuleError;
      }
      if !field.IsEmptySpace(Position(0, col - 1)) {
        return GameOver;
      }
      PlaceNew(col - 1);
      status := Ok;
    }

    /** `rotate_faller`: rotates the faller and writes its jewels back, bottom first. */
    method RotateFaller()
      requires Valid() && anchor.Some?
      modifies field, faller
      ensures Valid()
      ensures faller.jewels == Rotated(old(faller.jewels))
      ensures field.cells == WithFaller(old(field.cells), anchor.value.row, anchor.value.col, faller.jewels)
    {
      faller.Rotate();
      field.WriteFaller(anchor.value, faller.jewels);
    }

    /** The first loop of `move_faller_column`: whether the three cells beside the faller, in
        the direction given, exist and are empty. */
    method CanShift(direction: int) returns (free: bool)
      requires Valid() && anchor.Some?
      ensures free <==> ShiftAllowed(field.cells, anchor.value.row, anchor.value.col + direction)
    {
      var a := anchor.value;
      var row := a.row;
      var col := a.col;
      var t := 0;
      while t < |faller.jewels|
        invariant 0 <= t <= FallerLength && row == a.row - t
        invariant t > 0 ==> 0 <= col + direction < field.cols
        invariant forall u :: a.row + FallerLength - t <= u < a.row + FallerLength && 0 <= col + direction < field.cols ==>
          field.cells[u][col + direction].color == 0
      {
        var position := Position(row, col + direction);
        if !(field.IsValidSpace(position) && field.IsEmptySpace(position)) {
          return false;
        }
        row := row - 1;
        t := t + 1;
      }
      return true;
    }

    /** The second loop of `move_faller_column` and what follows it: the faller moves to column
        `c2`, the anchor follows, and the faller lands or falls by the room in its new column. */
    method ShiftOver(c2: int)
      requires Valid() && anchor.Some? && c2 != anchor.value.col
      requires ShiftAllowed(field.cells, anchor.value.row, c2)
      modifies this, field, faller
      ensures Valid() && faller == old(faller)
      ensures anchor == Some(Position(old(anchor).value.row, c2))
      ensures faller.jewels == AfterLanding(old(faller.jewels), RoomBelow(old(field.cells), anchor.value))
      ensures field.cells == WithFaller(
          Shifted(old(field.cells), old(anchor).value.row, old(anchor).value.col, c2, old(faller.jewels)),
          anchor.value.row, c2, faller.jewels)
    {
      var a := anchor.value;
      ghost var g0 := field.cells;
      ghost var js := faller.jewels;
      field.ShiftFaller(a, c2, faller.jewels);
      ghost var moved := field.cells;
      var p2 := Position(a.row, c2);
      RoomBelowSame(moved, g0, p2);
      anchor := Some(p2);
      var landed := CheckFallerLanding();
    }

    /** `move_faller_column`: moves the faller one column over when all three target cells
        exist and are empty, and otherwise does nothing. */
    method MoveFallerColumn(direction: int)
      requires Valid() && anchor.Some? && direction != 0
      modifies this, field, faller
      ensures Valid() && faller == old(faller)
      ensures Outcome(Ok, field.cells, faller.jewels, anchor) ==
        ColumnMove(old(field.cells), old(faller.jewels), old(anchor).value, old(anchor).value.col + direction)
    {
      var a := anchor.value;
      var col := a.col;
      var free := CanShift(direction);
      if !free {
        return;
      }
      ShiftOver(col + direction);
    }

    /** The first branch of `move_faller_down`, taken when there is room below: the faller's
        jewels move one row down, its old top cell is emptied, the anchor follows and the
        faller lands or falls by the room left. */
    method FallOneRow()
      requires Valid() && anchor.Some? && RoomBelow(field.cells, anchor.value) > 0
      modifies this, field, faller
      ensures Valid() && faller == old(faller)
      ensures Outcome(Ok, field.cells, faller.jewels, anchor) ==
        FallerTick(old(field.cells), old(faller.jewels), old(anchor).value)
    {
      var a := anchor.value;
      ghost var g0 := field.cells;
      ghost var js := faller.jewels;
      assert Column(g0, a.col)[a.row + FallerLength].color == 0;
      field.LowerFaller(a, faller.jewels);
      anchor := Some(Position(a.row + 1, a.col));
      ghost var moved := field.cells;
      var landed := CheckFallerLanding();
      TickWithRoom(g0, js, a, moved, faller.jewels, field.cells);
    }

    /** `self._faller.freeze()`: the faller's jewels, and so its cells, become frozen. */
    method FreezeInPlace()
      requires Valid() && anchor.Some?
      modifies field, faller
      ensures Valid()
      ensures faller.jewels == WithState(old(faller.jewels), Frozen)
      ensures field.cells == WithFaller(old(field.cells), anchor.value.row, anchor.value.col, faller.jewels)
    {
      faller.Freeze();
      StoreFaller();
    }

    /** The second branch of `move_faller_down`, taken when there is no room below: the faller
        freezes, the search marks the runs, and unless the game is over the faller leaves the
        field. */
    method FreezeFaller() returns (status: Status)
      requires Valid() && anchor.Some? && RoomBelow(field.cells, anchor.value) == 0
      modifies this, field, faller
      ensures Valid() && faller == old(faller)
      ensures Outcome(status, field.cells, faller.jewels, anchor) ==
        FallerTick(old(field.cells), old(faller.jewels), old(anchor).value)
    {
      var a := anchor.value;
      ghost var g0 := field.cells;
      ghost var js := faller.jewels;
      FreezeInPlace();
      ghost var frozen := field.cells;
      SearchForMatches();
      var fits := CheckIfFallerFits();
      TickWithoutRoom(g0, js, a, frozen, field.cells);
      if !fits {
        return GameOver;
      }
      anchor := None;
      status := Ok;
    }

    /** `move_faller_down`, one tick with the faller on the field. */
    method MoveFallerDown() returns (status: Status)
      requires Valid() && anchor.Some?
      modifies this, field, faller
      ensures Valid() && faller == old(faller)
      ensures Outcome(status, field.cells, faller.jewels, anchor) ==
        FallerTick(old(field.cells), old(faller.jewels), old(anchor).value)
    {
      var emptySpaces := field.CountEmptySpacesUnderneath(anchor.value);
      if emptySpaces > 0 {
        FallOneRow();
        status := Ok;
      } else {
        status := FreezeFaller();
      }
    }

    /** `handle_time`: one tick of the game. */
    method HandleTime() returns (status: Status)
      requires Valid()
      modifies this, field, faller
      ensures Valid() && faller == old(faller)
      ensures old(anchor).Some? ==>
        Outcome(status, field.cells, faller.jewels, anchor) ==
        FallerTick(old(field.cells), old(faller.jewels), old(anchor).value)
      ensures old(anchor).None? ==>
        (status, field.cells) == BoardTick(old(field.cells)) && anchor == None && faller.jewels == old(faller.jewels)
    {
      if anchor.Some? {
        status := MoveFallerDown();
      } else {
        EliminateMatches();
        field.ApplyGravity();
        SearchForMatches();
        var fits := CheckIfFallerFits();
        status := if fits then Ok else GameOver;
      }
    }
  }
}
