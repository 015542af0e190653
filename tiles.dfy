/**
 * The two per-cell facets of the minefield and the choice of what a cell
 * looks like when the field is drawn.
 */
module Tiles {

  /** What a cell holds: a mine, or a clear cell with its neighbour counter (a `u8` in the game). */
  datatype Tile = Mine | Clear(value: nat)

  /** What the player knows about a cell. */
  datatype TileData = Unknown | Known | Flagged

  /** One grid cell: content and visibility. */
  type Cell = (Tile, TileData)

  /** The colours the drawing code can pick. */
  datatype Color = Blue | Green | Red | Purple | Orange | Yellow | Black | TileColor | UnknownTileColor

  /** The palette for the numbers 1 to 8: number `v` is drawn in `Colors[v - 1]`. */
  const Colors: seq<Color> := [Blue, Green, Red, Purple, Red, Orange, Yellow, Yellow]

  /** The text drawn on top of a cell's rectangle, if any. */
  datatype Label = NoLabel | Glyph(ch: char, color: Color) | Number(value: nat, color: Color)

  /** A drawn cell: the rectangle's fill and the text on it. */
  datatype Look = Look(fill: Color, text: Label)

  /**
   * The outcome of drawing one cell: its look, or the panic raised when the
   * palette lookup `Colors[value - 1]` is out of range.
   */
  datatype Drawn = Drawn(look: Look) | IndexPanic(index: nat)

  /** A counter that the palette can show: the index `value - 1` lies in `0..8`. */
  predicate Showable(value: nat)
  {
    1 <= value <= |Colors|
  }

  /**
   * The per-cell dispatch of `Minefield::draw`: hidden and flagged cells show
   * only the unknown-tile rectangle (a flag adds a red "P"), a known mine is a
   * red rectangle with a black "X", a known clear cell shows the plain tile and,
   * unless its counter is zero, the counter in its palette colour.
   */
  function Appearance(cell: Cell): (r: Drawn)
    ensures r.IndexPanic? <==> cell.1 == Known && cell.0.Clear? && cell.0.value > |Colors|
    ensures r.Drawn? && r.look.text.Number? <==>
              cell.1 == Known && cell.0.Clear? && Showable(cell.0.value)
    ensures r.Drawn? && r.look.text.Number? ==>
              r.look.text.value == cell.0.value && r.look.text.color == Colors[cell.0.value - 1]
    ensures r.Drawn? && r.look.fill == UnknownTileColor <==> cell.1 != Known
    ensures r.Drawn? && r.look.text == Glyph('X', Black) <==> cell == (Mine, Known)
    ensures r.Drawn? && r.look.text == Glyph('P', Red) <==> cell.1 == Flagged
  {
    match cell.1
    case Unknown => Drawn(Look(UnknownTileColor, NoLabel))
    case Flagged => Drawn(Look(UnknownTileColor, Glyph('P', Red)))
    case Known =>
      match cell.0
      case Mine => Drawn(Look(Red, Glyph('X', Black)))
      case Clear(value) =>
        if value == 0 then Drawn(Look(TileColor, NoLabel))
        else if value - 1 < |Colors| then Drawn(Look(TileColor, Number(value, Colors[value - 1])))
        else IndexPanic(value - 1)
  }

  /** A cell that is not known looks the same whatever it holds: drawing never leaks a hidden tile. */
  lemma HiddenContentInvisible(t1: Tile, t2: Tile, d: TileData)
    requires d != Known
    ensures Appearance((t1, d)) == Appearance((t2, d))
  {
  }

  /** Drawing a cell panics only when a known clear cell's counter exceeds 8. */
  lemma NoPanicWhenCountersBounded(cell: Cell)
    requires cell.0.Clear? ==> cell.0.value <= 8
    ensures Appearance(cell).Drawn?
  {
  }
}
