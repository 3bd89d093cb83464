/** The faller's moves as functions of the grid: where its three cells go, what is left empty
    behind, and which states landing gives it. Rows are storage rows; `s` is the storage row of
    the faller's top jewel, which is the anchor's visible row. */
module Moves {
  import opened Jewels
  import opened Grids
  import opened Fallers

  /** Three fresh empty cells, what a faller leaves behind when it moves sideways. */
  const Empties: seq<Jewel> := [Empty, Empty, Empty]

  /** `check_faller_landing` on the faller's jewels, given the room below it: a falling faller
      with no room lands, a landed faller with room falls again, any other faller stays. The
      top jewel's state decides, and a change of state is made to all three jewels at once. */
  function AfterLanding(js: seq<Jewel>, room: nat): (r: seq<Jewel>)
    requires |js| == FallerLength
    ensures |r| == FallerLength
    ensures forall t :: 0 <= t < FallerLength ==> r[t].color == js[t].color
    ensures r[0].state == Landed <==> (room == 0 && js[0].state in {Falling, Landed})
    ensures r[0].state == Falling <==> (room > 0 && js[0].state in {Falling, Landed})
    ensures js[0].state !in {Falling, Landed} ==> r == js
    ensures r[0].state == js[0].state ==> r == js
    ensures r[0].state != js[0].state ==> r == WithState(js, r[0].state)
  {
    if room == 0 && js[0].state == Falling then WithState(js, Landed)
    else if room > 0 && js[0].state == Landed then WithState(js, Falling)
    else js
  }

  /** Landing a second time with the same room changes nothing. */
  lemma AfterLandingIdempotent(js: seq<Jewel>, room: nat)
    requires |js| == FallerLength
    ensures AfterLanding(AfterLanding(js, room), room) == AfterLanding(js, room)
  {
    var once := AfterLanding(js, room);
    if room == 0 && js[0].state == Falling {
      assert WithState(once, Landed) == once;
    } else if room > 0 && js[0].state == Landed {
      assert WithState(once, Falling) == once;
    }
  }

  /** The faller moved one row down: its jewels at storage rows `s + 1 .. s + 3` of column `c`,
      a fresh empty cell at row `s`, where its top jewel was. */
  function Descended(g: Grid, s: int, c: int, js: seq<Jewel>): (r: Grid)
    requires Rect(g) && 0 <= s && s + FallerLength < |g| && 0 <= c < Width(g) && |js| == FallerLength
    ensures |r| == |g| && forall i {:trigger r[i]} :: 0 <= i < |g| ==> |r[i]| == |g[i]|
    ensures r[s][c] == Empty
    ensures forall t :: 0 <= t < FallerLength ==> r[s + 1 + t][c] == js[t]
    ensures forall i, j {:trigger r[i][j]} :: 0 <= i < |g| && 0 <= j < |g[i]| && (j != c || i < s || i > s + FallerLength) ==>
      r[i][j] == g[i][j]
  {
    SetAt(WithFaller(g, s + 1, c, js), Position(s, c), Empty)
  }

  /** Every target cell in column `c2`, rows `s .. s + 2`, exists and is empty. */
  predicate ShiftAllowed(g: Grid, s: int, c2: int)
    requires 0 <= s && s + FallerLength <= |g| && Rect(g)
  {
    0 <= c2 < Width(g) && forall i :: s <= i < s + FallerLength ==> g[i][c2].color == 0
  }

  /** The faller moved from column `c` to column `c2`: its jewels in column `c2`, fresh empty
      cells where they were, and no other cell changed. */
  function Shifted(g: Grid, s: int, c: int, c2: int, js: seq<Jewel>): (r: Grid)
    requires |js| == FallerLength && c != c2
    ensures |r| == |g| && forall i {:trigger r[i]} :: 0 <= i < |g| ==> |r[i]| == |g[i]|
    ensures forall i, j {:trigger r[i][j]} :: 0 <= i < |g| && 0 <= j < |g[i]| ==>
      r[i][j] == if s <= i < s + FallerLength && j == c2 then js[i - s]
                 else if s <= i < s + FallerLength && j == c then Empty
                 else g[i][j]
  {
    WithFaller(WithFaller(g, s, c, Empties), s, c2, js)
  }

  /** Moving over and straight back restores the grid when the cells moved into were fresh
      empty cells. */
  lemma ShiftRoundTrip(g: Grid, s: int, c: int, c2: int, js: seq<Jewel>)
    requires Rect(g) && 0 <= s && s + FallerLength <= |g| && 0 <= c < Width(g) && 0 <= c2 < Width(g)
    requires |js| == FallerLength && c != c2
    requires forall t :: 0 <= t < FallerLength ==> g[s + t][c] == js[t] && g[s + t][c2] == Empty
    ensures Shifted(Shifted(g, s, c, c2, js), s, c2, c, js) == g
  {
    var back := Shifted(Shifted(g, s, c, c2, js), s, c2, c, js);
    forall i, j | 0 <= i < |g| && 0 <= j < |g[i]|
      ensures back[i][j] == g[i][j]
    {
      if s <= i < s + FallerLength && (j == c || j == c2) {
        assert g[s + (i - s)][c] == js[i - s] && g[s + (i - s)][c2] == Empty;
      }
    }
    GridExt(back, g);
  }

  /** `r` is `g` with the faller's cells, rows `s .. s + 2`, moved from column `c` to column
      `c2`: the target cells hold `ks`, the old cells are fresh empty cells, and no other cell
      changes. */
  ghost predicate MovedOver(g: Grid, r: Grid, s: int, c: int, c2: int, ks: seq<Jewel>)
  {
    Rect(g) && |ks| == FallerLength && |r| == |g| && (forall i :: 0 <= i < |g| ==> |r[i]| == |g[i]|) &&
    0 <= s && s + FallerLength <= |g| && 0 <= c < Width(g) && 0 <= c2 < Width(g) &&
    (forall t :: 0 <= t < FallerLength ==> r[s + t][c2] == ks[t] && r[s + t][c] == Empty) &&
    (forall i, j :: 0 <= i < |g| && 0 <= j < |g[i]| && ((j != c && j != c2) || i < s || i >= s + FallerLength) ==>
      r[i][j] == g[i][j])
  }

  /** The move followed by the landing's write is a move over with the landed jewels. */
  lemma ShiftedPlaced(g: Grid, s: int, c: int, c2: int, js: seq<Jewel>, ks: seq<Jewel>)
    requires Rect(g) && 0 <= s && s + FallerLength <= |g| && 0 <= c < Width(g) && 0 <= c2 < Width(g)
    requires |js| == FallerLength && |ks| == FallerLength && c != c2
    ensures MovedOver(g, WithFaller(Shifted(g, s, c, c2, js), s, c2, ks), s, c, c2, ks)
  {
    var r := WithFaller(Shifted(g, s, c, c2, js), s, c2, ks);
    forall t | 0 <= t < FallerLength
      ensures r[s + t][c2] == ks[t] && r[s + t][c] == Empty
    {
      assert |g[s + t]| == Width(g);
    }
  }

  // ---------------------------------------------------------------- one write at a time

  /** A second write of the same cells replaces the first. */
  lemma PlaceTwice(g: Grid, s: int, c: int, a: seq<Jewel>, b: seq<Jewel>)
    requires |a| == |b|
    ensures WithFaller(WithFaller(g, s, c, a), s, c, b) == WithFaller(g, s, c, b)
  {
    GridExt(WithFaller(WithFaller(g, s, c, a), s, c, b), WithFaller(g, s, c, b));
  }

  /** A sideways move part-way done: rows `lo .. hi - 1` of column `c2` hold their jewels of
      `js` (which starts at row `s`) and the same rows of column `c` are empty. */
  ghost predicate Shifting(r: Grid, g: Grid, s: int, c: int, c2: int, lo: int, hi: int, js: seq<Jewel>)
  {
    s <= lo <= hi <= s + |js| &&
    |r| == |g| && (forall i :: 0 <= i < |g| ==> |r[i]| == |g[i]|) &&
    forall i, j :: 0 <= i < |g| && 0 <= j < |g[i]| ==>
      r[i][j] == if lo <= i < hi && j == c2 then js[i - s]
                 else if lo <= i < hi && j == c then Empty
                 else g[i][j]
  }

  lemma ShiftingNone(g: Grid, s: int, c: int, c2: int, lo: int, js: seq<Jewel>)
    requires s <= lo <= s + |js|
    ensures Shifting(g, g, s, c, c2, lo, lo, js)
  {
  }

  /** One sideways step of one jewel: it is written into column `c2` at `p2`, then its old cell
      `p` is emptied. */
  lemma ShiftingAbove(r: Grid, g: Grid, s: int, c: int, c2: int, lo: int, hi: int, js: seq<Jewel>,
                      p2: Position, x: Jewel, p: Position)
    requires Shifting(r, g, s, c, c2, lo, hi, js) && s < lo && c != c2
    requires p2 == Position(lo - 1, c2) && p == Position(lo - 1, c) && InGrid(r, p2) && InGrid(r, p)
    requires x == js[lo - 1 - s]
    ensures InGrid(SetAt(r, p2, x), p)
    ensures Shifting(SetAt(SetAt(r, p2, x), p, Empty), g, s, c, c2, lo - 1, hi, js)
  {
  }

  lemma ShiftingAll(r: Grid, g: Grid, s: int, c: int, c2: int, lo: int, hi: int, js: seq<Jewel>)
    requires Shifting(r, g, s, c, c2, lo, hi, js) && lo == s && hi == s + |js|
    requires |js| == FallerLength && c != c2
    ensures r == Shifted(g, s, c, c2, js)
  {
    GridExt(r, Shifted(g, s, c, c2, js));
  }
}
