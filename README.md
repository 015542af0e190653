# Minesweeper minefield — a Dafny model

This project models the core of a small minesweeper game written in Rust with
macroquad. The core is the `Minefield` grid in `src/main.rs`. It has three parts:

- **Generation** (`Minefield::new`). It builds a `size × size` grid of hidden
  `Clear(0)` tiles. Then, for each of `amount` random positions, it turns that
  tile into a `Mine` and bumps the counter of every clear tile in the
  edge-clipped 3×3 window around it.
- **The click handler** in the game loop. It marks one tile `Known`, guarded by
  `0 < tile_x < field_size` and `0 < tile_y < field_size`.
- **The per-tile dispatch** of `Minefield::draw`. It decides what a tile shows
  and picks a palette entry with `COLORS[value - 1]`.

Files:

- `tiles.dfy`, module `Tiles`. The datatypes `Tile`, `TileData` and `Cell`, the
  palette, and the pure function `Appearance` for the draw dispatch.
- `placement.dfy`, module `Placement`. The specification of generation as
  functions of the drawn positions: `PlacedTile`, `Hits` and `GridOf`. The
  window arithmetic, and the lemmas on mines and counters.
- `field.dfy`, module `Field`. The class `Minefield`, whose `mines` field is an
  `array2<Cell>` indexed `[x, y]` with x as the outer index, as in the source.
  Its constructor runs the nested generation loops in place. `Click` is the
  guarded in-place reveal and `Draw` is the drawing pass. The click is also
  specified as a function on grids, `AfterClick`, with lemmas about it.

The random generator is replaced by a parameter: the sequence of positions it
would have drawn. The pixel-to-tile conversion is replaced by natural-number
tile coordinates.

## Model

| member | source | states |
|---|---|---|
| `Tiles.Appearance` | src/main.rs:49-93 | Drawing panics exactly when a known clear tile's counter exceeds 8. A number is shown exactly for a known clear tile with counter 1..8, in `COLORS[value - 1]`. The unknown-tile fill is used exactly for tiles that are not known. The black "X" is shown exactly for a known mine, and the red "P" exactly for a flagged tile. |
| `Tiles.HiddenContentInvisible` | src/main.rs:49-68 | An unknown or flagged tile looks the same whatever it holds. |
| `Tiles.NoPanicWhenCountersBounded` | src/main.rs:82-90 | If every clear counter is at most 8, the palette lookup is in range. |
| `Placement.RangeStart` | src/main.rs:29-30 | `saturating_sub(1)` never exceeds its argument, is at most one below it, and is exactly one below for a positive argument. |
| `Placement.RangeEnd` | src/main.rs:29-30 | `(n + 2).min(size)` never exceeds `size` or `n + 2`, and lies above `n` for in-bounds `n`. |
| `Placement.WindowIsClippedBlock` | src/main.rs:29-30 | For an in-bounds position both neighbour ranges lie inside `0..size`. The visited window is exactly the in-bounds part of the 3×3 block. |
| `Placement.Bump` | src/main.rs:31-36 | The increment leaves a mine a mine and adds one to a clear counter. |
| `Placement.Hits` | src/main.rs:24-30 | The number of draws whose window holds a cell is at most the number of draws. |
| `Placement.PlacedTile` | src/main.rs:24-38 | The tile at a position after the draws are processed in order: the last drawn position is a mine, and a clear counter never exceeds the number of draws. |
| `Placement.GridOf` | src/main.rs:21-22 | The built grid has `size` columns of `size` tiles, and every tile's visibility is `Unknown`. |
| `Placement.MineIffDrawn` | src/main.rs:27-35 | A tile ends up a mine exactly when its position was drawn. |
| `Placement.MineStaysMine` | src/main.rs:31-35 | A tile that is a mine after some draws is still a mine after all of them. |
| `Placement.ClearCountsHits` | src/main.rs:24-38 | A tile never drawn is clear, and its counter is the number of draws, with repetition, whose window holds it. |
| `Placement.HitsOfDistinct` | src/main.rs:24-30 | Without repeated draws, that number is the number of distinct drawn positions whose window holds the tile. |
| `Placement.MinesAreDrawnPositions` | src/main.rs:24-27 | The set of mine tiles of the built grid is exactly the set of drawn positions. |
| `Placement.ElementsCount` | src/main.rs:24-26 | A sequence of draws has at most as many distinct positions as draws, and exactly as many iff no draw repeats. |
| `Placement.MineCount` | src/main.rs:24-27 | The number of mines is at most `amount`, and equals `amount` iff the draws are pairwise distinct. |
| `Placement.MinesAroundAreHits` | src/main.rs:29-35 | For an undrawn tile, the mines among its clipped eight neighbours are the drawn positions whose window holds it. |
| `Placement.DistinctCountsExact` | src/main.rs:24-38 | With pairwise distinct draws, every clear tile's counter equals the number of mines among its clipped eight neighbours. |
| `Placement.CounterAtMostAmount` | src/main.rs:33 | Whatever the draws, no counter exceeds `amount`. |
| `Placement.ExactCountersShowable` | src/main.rs:82-90 | When every counter is exact, every counter is at most 8, because no tile has more than eight neighbours. |
| `Placement.AtMostEightMinesAround` | src/main.rs:29-30 | Whatever the grid, at most eight mines surround a tile. |
| `Placement.DistinctNeverPanics` | src/main.rs:90-100 | With distinct draws, drawing any tile of the built grid never indexes `COLORS` out of range. |
| `Placement.Resample` | src/main.rs:24-27 | The corrected generator, with no counterpart in the source: it keeps a draw only if it is new and fewer than `amount` are kept, so it keeps at most `amount` positions. |
| `Placement.ResampleProperties` | src/main.rs:24-27 | The resampling generator keeps distinct positions, all of them draws, at most `amount` of them. It keeps fewer only when every draw was kept. |
| `Placement.ResampleInBounds` | src/main.rs:24-26 | Resampled positions are in bounds when the draws are. |
| `Placement.ResampledCountsExact` | src/main.rs:24-38 | For any draws, the resampled grid has exact counters and at most `amount` mines. |
| `Placement.DuplicateDrawMiscounts` | src/main.rs:24-38 | As written, drawing the centre of a 3×3 field twice leaves one mine, not two. The corner counter is then 2 while one mine touches it, so the counters are not exact. |
| `Placement.HitByEveryDraw` | src/main.rs:24-33 | A tile in the window of every draw is bumped once per draw. |
| `Placement.ResampledNeverPanics` | src/main.rs:82-90 | With resampling, whatever the draws, drawing any tile of the grid never panics. |
| `Field.GameCountersFitInByte` | src/main.rs:107-108 | For the game's 16×16 field with 64 draws, no counter exceeds 255, so the `u8` increment cannot overflow. |
| `Field.ClickGuard` | src/main.rs:117-118 | The guard as written admits only on-grid tiles, and never a tile in column 0 or row 0. |
| `Field.AfterClick` | src/main.rs:117-120 | The grid after a click keeps its size, and no tile's content changes. |
| `Field.ClickEffect` | src/main.rs:117-120 | A click changes no tile's content and changes no tile other than the clicked one. The clicked tile becomes known when the guard holds; otherwise the grid is unchanged. |
| `Field.ClickIdempotent` | src/main.rs:119 | Clicking the same tile twice gives the same grid as clicking it once. |
| `Field.ClickKeepsCounts` | src/main.rs:117-120 | A click keeps every counter exact. |
| `Field.EdgeClickIgnored` | src/main.rs:117-118 | A click on column 0 or row 0 of the grid leaves the grid unchanged, so such a tile stays unknown. |
| `Field.FixedClickRevealsAnyTile` | src/main.rs:117-119 | With the corrected guard, every on-grid clicked tile becomes known. No content changes, and no other tile changes. |
| `Field.RepeatedDrawsCanPanic` | src/main.rs:82-90 | As written, nine draws of the centre of a 3×3 field leave corner tile (2, 2) at counter 9. The click guard admits that tile, and drawing it once revealed makes the lookup `COLORS[8]` panic. |
| `Field.PlaceMine` | src/main.rs:27-37 | One iteration of the generation loop moves every tile from its state after the earlier draws to its state after this draw, and keeps visibilities. |
| `Field.Minefield.constructor` | src/main.rs:20-41 | The new field is a fresh `size × size` array equal to `GridOf(size, positions)`, and its tile contents are those of the placed draws. |
| `Field.Minefield.Resampling` | src/main.rs:24-27 | The corrected generator places the resampled positions: distinct, at most `amount`, and fewer only if the draws ran out of new positions. |
| `Field.Minefield.Click` | src/main.rs:114-121 | The in-place update leaves the grid equal to `AfterClick` of the old grid, and the field stays valid. |
| `Field.Minefield.FixedClick` | src/main.rs:117-119 | The corrected in-place update leaves the grid equal to `AfterFixedClick` of the old grid. |
| `Field.Minefield.Draw` | src/main.rs:42-97 | The drawing pass gives each tile its `Appearance` and reports whether any lookup panics. It never panics when the placed positions are distinct. |

## Left out

- The random generator (`rand::RandGenerator`, `gen_range`): randomness is not modelled. The drawn positions are a parameter of the constructors, each required to be in bounds, as `gen_range(0, size)` guarantees for `size > 0`.
- Field.Minefield.constructor: a call with `size == 0` and `amount > 0` is excluded, because no position is then in bounds. The source panics on `field[x][y]` in that call, whatever `gen_range` returns. The game itself only calls it with size 16.
- All macroquad rendering: `draw_rectangle`, `draw_text`, `clear_background` and the colour values, including `from_hex`. Only the choice of fill, glyph, number and palette entry per tile is modelled. The text of a number (`value.to_string()`) is kept as the number itself.
- Pointer polling and the float pixel-to-tile conversion `(mouse / scaling) as usize`. These are floating point and platform input. The click handler takes natural-number tile coordinates.
- The async frame loop and `next_frame().await`.
- Tile counters are unbounded naturals, not `u8`. An overflow of `*value += 1` (a panic in debug builds, wrap-around in release builds) is not modelled. `Placement.CounterAtMostAmount` and `Field.GameCountersFitInByte` show that it cannot happen with the game's 64 draws.
- `TileData::Flagged` is drawn but never assigned in this source, so no operation produces it.
- Flood-fill expansion, flag toggling, flag counters, win and loss detection, and the safe first click are not present in `src/main.rs`, so nothing models them.

## Findings

| source | as written | input that shows it | evidently intended | confidence | as-written member | corrected member |
|---|---|---|---|---|---|---|
| src/main.rs:117-118 | The click guard is `tile_x > 0 && tile_x < field_size`, and the same for `y`. It rejects column 0 and row 0 of the grid. | A click on tile (0, 5) of the 16×16 field leaves that tile unknown for ever. | Every tile with `tile < field_size` on both axes can be revealed. | high; not executed | `Field.EdgeClickIgnored` | `Field.FixedClickRevealsAnyTile` |
| src/main.rs:24-38 | A position drawn twice is not resampled. It stays one mine, and its window's counters are bumped a second time. | Draws (1, 1), (1, 1) on a 3×3 field give one mine for an `amount` of 2, and the corner counter is 2 while one mine touches it. | Exactly `amount` distinct mines, and every counter equals its number of adjacent mines. | medium; not executed | `Placement.DuplicateDrawMiscounts` | `Placement.ResampledCountsExact` |
| src/main.rs:82-90 | Repeated draws push a counter past 8, and drawing that tile once it is known indexes `COLORS[value - 1]` out of range. | Nine draws of (1, 1) on a 3×3 field give tile (2, 2) the counter `Clear(9)`. A click on (2, 2) passes the guard, and drawing the revealed tile looks up `COLORS[8]` and panics. | No counter exceeds 8, so the lookup is always in range. | medium; not executed | `Field.RepeatedDrawsCanPanic` | `Placement.ResampledNeverPanics` |
