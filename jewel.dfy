/** Jewels: the cell values of the board. */
module Jewels {

  /** Colour 0 is the empty cell; colours 1..7 are jewels. */
  const TotalColors: int := 8
  /** A faller is three jewels stacked in one column. */
  const FallerLength: int := 3
  const MinMatchLength: int := 3
  const MinRows: int := 4
  const MinCols: int := 3
  /** Rows of the hidden spawn buffer above the visible area. */
  const Hidden: int := FallerLength - 1

  type Color = c: int | 0 <= c < TotalColors

  /** The source numbers these 0 (frozen), 1 (falling), 2 (landed), 3 (matched). */
  datatype JewelState = Frozen | Falling | Landed | Matched

  datatype Jewel = Jewel(color: Color, state: JewelState)

  /** A freshly made empty cell, `Jewel(0)` in the source. */
  const Empty: Jewel := Jewel(0, Frozen)

  predicate IsEmpty(j: Jewel) { j.color == 0 }

  /** A colour a faller may carry. */
  predicate IsJewelColor(c: int) { 1 <= c < TotalColors }

  /** Value equality of the source (`==` on jewels): the state is ignored. */
  function SameColor(a: Jewel, b: Jewel): (r: bool)
    ensures r <==> a.(state := Frozen) == b.(state := Frozen)
  {
    a.color == b.color
  }

  /** Full equality (`matches`): colour and state. */
  function Matches(a: Jewel, b: Jewel): (r: bool)
    ensures r <==> a == b
    ensures r ==> SameColor(a, b)
  {
    a.color == b.color && a.state == b.state
  }
}
