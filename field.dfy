/**
 * The `Minefield` object: its generation from a stream of drawn positions,
 * the click handler of the game loop that reveals one tile, and the drawing
 * pass over every tile.
 */
module Field {
  import opened Tiles
  import opened Placement

  /** The side of the field the game creates. */
  const FieldSize: nat := 16
  /** The number of draws the game asks for: a quarter of the tiles. */
  const MineAmount: nat := FieldSize * FieldSize / 4

  /**
   * For the game's own field, 64 draws on a 16×16 grid, no counter can pass
   * 255, so the `u8` increment never overflows, even with repeated draws.
   */
  lemma GameCountersFitInByte(ps: seq<Position>)
    requires |ps| == MineAmount && AllInBounds(FieldSize, ps)
    ensures MineAmount == 64
    ensures forall x, y :: 0 <= x < FieldSize && 0 <= y < FieldSize && GridOf(FieldSize, ps)[x][y].0.Clear? ==>
      GridOf(FieldSize, ps)[x][y].0.value <= 255
  {
    forall x: nat, y: nat | x < FieldSize && y < FieldSize
      ensures GridOf(FieldSize, ps)[x][y].0.Clear? ==> GridOf(FieldSize, ps)[x][y].0.value <= 255
    {
      CounterAtMostAmount(FieldSize, ps, x, y);
    }
  }

  // ---------------------------------------------------------------------
  // The click handler, as a function of the grid

  /** The bounds test of the click handler, as written: `0 < tile < field_size` on both axes. */
  predicate ClickGuard(size: nat, tileX: nat, tileY: nat): (ok: bool)
    ensures ok ==> tileX < size && tileY < size
    ensures tileX == 0 || tileY == 0 ==> !ok
  {
    tileX > 0 && tileX < size && tileY > 0 && tileY < size
  }

  /** The bounds test the handler evidently means: the tile lies on the grid. */
  predicate FixedClickGuard(size: nat, tileX: nat, tileY: nat)
  {
    tileX < size && tileY < size
  }

  /** Mark the tile at `[x][y]` as known. */
  function SetKnown(g: seq<seq<Cell>>, x: nat, y: nat): seq<seq<Cell>>
    requires Square(g) && x < |g| && y < |g|
  {
    g[x := g[x][y := (g[x][y].0, Known)]]
  }

  /** The grid after a left click on tile `(tileX, tileY)`, with the guard as written. */
  function AfterClick(g: seq<seq<Cell>>, tileX: nat, tileY: nat): (r: seq<seq<Cell>>)
    requires Square(g)
    ensures Square(r) && |r| == |g|
    ensures forall x, y :: 0 <= x < |g| && 0 <= y < |g| ==> r[x][y].0 == g[x][y].0
  {
    if ClickGuard(|g|, tileX, tileY) then SetKnown(g, tileX, tileY) else g
  }

  /** The grid after a left click on tile `(tileX, tileY)`, with the corrected guard. */
  function AfterFixedClick(g: seq<seq<Cell>>, tileX: nat, tileY: nat): seq<seq<Cell>>
    requires Square(g)
  {
    if FixedClickGuard(|g|, tileX, tileY) then SetKnown(g, tileX, tileY) else g
  }

  /**
   * A click changes only the visibility of the clicked tile, which becomes
   * known exactly when the guard admits it; no tile's content changes.
   */
  lemma ClickEffect(g: seq<seq<Cell>>, tileX: nat, tileY: nat)
    requires Square(g)
    ensures Square(AfterClick(g, tileX, tileY)) && |AfterClick(g, tileX, tileY)| == |g|
    ensures forall x, y :: 0 <= x < |g| && 0 <= y < |g| ==>
      AfterClick(g, tileX, tileY)[x][y].0 == g[x][y].0
    ensures forall x, y :: 0 <= x < |g| && 0 <= y < |g| && (x != tileX || y != tileY) ==>
      AfterClick(g, tileX, tileY)[x][y] == g[x][y]
    ensures ClickGuard(|g|, tileX, tileY) ==> AfterClick(g, tileX, tileY)[tileX][tileY].1 == Known
    ensures !ClickGuard(|g|, tileX, tileY) ==> AfterClick(g, tileX, tileY) == g
  {
  }

  /** Clicking the same tile twice leaves the grid as one click does. */
  lemma ClickIdempotent(g: seq<seq<Cell>>, tileX: nat, tileY: nat)
    requires Square(g)
    ensures Square(AfterClick(g, tileX, tileY))
    ensures AfterClick(AfterClick(g, tileX, tileY), tileX, tileY) == AfterClick(g, tileX, tileY)
  {
    if ClickGuard(|g|, tileX, tileY) {
      var g1: seq<seq<Cell>> := AfterClick(g, tileX, tileY);
      assert g1[tileX][tileY := (g1[tileX][tileY].0, Known)] == g1[tileX];
    }
  }

  /** A click keeps every counter exact, since it changes no content. */
  lemma ClickKeepsCounts(g: seq<seq<Cell>>, tileX: nat, tileY: nat)
    requires Square(g) && CountsExact(g)
    ensures Square(AfterClick(g, tileX, tileY))
    ensures CountsExact(AfterClick(g, tileX, tileY))
  {
    var g1: seq<seq<Cell>> := AfterClick(g, tileX, tileY);
    ClickEffect(g, tileX, tileY);
    forall c: Position
      ensures MinesAround(g1, c) == MinesAround(g, c)
    {
    }
  }

  /** Column 0 and row 0 are on the grid, yet a click there never reveals anything. */
  lemma EdgeClickIgnored(g: seq<seq<Cell>>, tileX: nat, tileY: nat)
    requires Square(g) && FixedClickGuard(|g|, tileX, tileY)
    requires tileX == 0 || tileY == 0
    ensures AfterClick(g, tileX, tileY) == g
    ensures g[tileX][tileY].1 == Unknown ==> AfterClick(g, tileX, tileY)[tileX][tileY].1 == Unknown
  {
  }

  /** With the corrected guard every tile on the grid can be revealed, and only that tile changes. */
  lemma FixedClickRevealsAnyTile(g: seq<seq<Cell>>, tileX: nat, tileY: nat)
    requires Square(g)
    ensures Square(AfterFixedClick(g, tileX, tileY)) && |AfterFixedClick(g, tileX, tileY)| == |g|
    ensures FixedClickGuard(|g|, tileX, tileY) ==> AfterFixedClick(g, tileX, tileY)[tileX][tileY].1 == Known
    ensures forall x, y :: 0 <= x < |g| && 0 <= y < |g| ==>
      AfterFixedClick(g, tileX, tileY)[x][y].0 == g[x][y].0 &&
      ((x != tileX || y != tileY) ==> AfterFixedClick(g, tileX, tileY)[x][y] == g[x][y])
  {
  }

  /**
   * As written, nine draws of the centre of a 3×3 field leave the corner
   * tile (2, 2) at counter 9. The guard admits a click there, and drawing the
   * revealed tile makes the palette lookup `COLORS[8]` panic.
   */
  lemma RepeatedDrawsCanPanic()
    ensures AllInBounds(3, seq(9, _ => Position(1, 1)))
    ensures ClickGuard(3, 2, 2)
    ensures GridOf(3, seq(9, _ => Position(1, 1)))[2][2].0 == Clear(9)
    ensures Appearance(AfterClick(GridOf(3, seq(9, _ => Position(1, 1))), 2, 2)[2][2]).IndexPanic?
  {
    var ps := seq(9, _ => Position(1, 1));
    assert Position(2, 2) !in ps;
    ClearCountsHits(3, ps, Position(2, 2));
    HitByEveryDraw(3, ps, Position(2, 2));
  }

  // ---------------------------------------------------------------------
  // Generation, one drawn position at a time

  /** The tile at `q` after position `p` is marked a mine, before its window is updated. */
  function Marked(size: nat, done: seq<Position>, p: Position, q: Position): Tile
  {
    if q == p then Mine else PlacedTile(size, done, q)
  }

  /**
   * One iteration of the generation loop: `field[x][y].0 = Tile::Mine`, then
   * `*value += 1` on every clear tile of the clipped window around `p`.
   */
  method PlaceMine(field: array2<Cell>, ghost done: seq<Position>, p: Position)
    requires field.Length0 == field.Length1 && InBounds(field.Length0, p)
    requires forall x, y :: 0 <= x < field.Length0 && 0 <= y < field.Length1 ==>
      field[x, y].0 == PlacedTile(field.Length0, done, Position(x, y))
    modifies field
    ensures forall x, y :: 0 <= x < field.Length0 && 0 <= y < field.Length1 ==>
      field[x, y] == (PlacedTile(field.Length0, done + [p], Position(x, y)), old(field[x, y].1))
  {
    var size := field.Length0;
    var x, y := p.x, p.y;
    field[x, y] := (Mine, field[x, y].1);
    var startX, endX := RangeStart(x), RangeEnd(size, x);
    for ny := RangeStart(y) to RangeEnd(size, y)
      invariant forall a, b :: 0 <= a < size && 0 <= b < size ==>
        field[a, b] == (if startX <= a < endX && RangeStart(y) <= b < ny
                        then Bump(Marked(size, done, p, Position(a, b)))
                        else Marked(size, done, p, Position(a, b)), old(field[a, b].1))
    {
      for nx := startX to endX
        invariant forall a, b :: 0 <= a < size && 0 <= b < size ==>
          field[a, b] == (if (startX <= a < endX && RangeStart(y) <= b < ny) || (b == ny && startX <= a < nx)
                          then Bump(Marked(size, done, p, Position(a, b)))
                          else Marked(size, done, p, Position(a, b)), old(field[a, b].1))
      {
        match field[nx, ny].0 {
          case Clear(value) =>
            field[nx, ny] := (Clear(value + 1), field[nx, ny].1);
          case Mine =>
        }
      }
    }
    assert (done + [p])[..|done|] == done;
  }

  // ---------------------------------------------------------------------
  // The minefield object

  class Minefield {
    /** The grid, indexed `mines[x, y]`. */
    const mines: array2<Cell>
    /** The positions that became mines, in the order they were placed. */
    ghost const placed: seq<Position>

    function Size(): nat
    {
      mines.Length0
    }

    /** The grid is square and each tile's content is what placing `placed` produces. */
    ghost predicate Valid()
      reads mines
    {
      && mines.Length0 == mines.Length1
      && AllInBounds(mines.Length0, placed)
      && forall x, y :: 0 <= x < mines.Length0 && 0 <= y < mines.Length1 ==>
           mines[x, y].0 == PlacedTile(mines.Length0, placed, Position(x, y))
    }

    /** The grid as nested sequences, outer index x. */
    ghost function Cells(): (g: seq<seq<Cell>>)
      reads mines
      ensures |g| == mines.Length0 && forall x :: 0 <= x < |g| ==> |g[x]| == mines.Length1
      ensures forall x, y :: 0 <= x < mines.Length0 && 0 <= y < mines.Length1 ==> g[x][y] == mines[x, y]
    {
      seq(mines.Length0, x requires 0 <= x < mines.Length0 reads mines =>
        seq(mines.Length1, y requires 0 <= y < mines.Length1 reads mines => mines[x, y]))
    }

    /**
     * `Minefield::new` with the random draws given as `positions`: a
     * `size × size` grid of hidden clear tiles, then one mine per draw with
     * the counters of its window bumped. Repeated draws are not resampled.
     */
    constructor (size: nat, amount: nat, positions: seq<Position>)
      requires |positions| == amount && AllInBounds(size, positions)
      ensures Valid() && Size() == size && placed == positions && fresh(mines)
      ensures Cells() == GridOf(size, positions)
    {
      var field := new Cell[size, size]((x, y) => (Clear(0), Unknown));
      for i := 0 to amount
        invariant forall x, y :: 0 <= x < size && 0 <= y < size ==>
          field[x, y] == (PlacedTile(size, positions[..i], Position(x, y)), Unknown)
      {
        PlaceMine(field, positions[..i], positions[i]);
        assert positions[..i] + [positions[i]] == positions[..i + 1];
      }
      assert positions[..amount] == positions;
      mines := field;
      placed := positions;
      new;
      assert Cells() == GridOf(size, positions) by {
        forall x | 0 <= x < size
          ensures Cells()[x] == GridOf(size, positions)[x]
        {
        }
      }
    }

    /**
     * The generator with repeated draws resampled: `draws` is the stream of
     * random positions, and a draw that repeats a mine is replaced by the next
     * one until `amount` mines are placed.
     */
    constructor Resampling(size: nat, amount: nat, draws: seq<Position>)
      requires AllInBounds(size, draws)
      ensures Valid() && Size() == size && placed == Resample(draws, amount) && fresh(mines)
      ensures Distinct(placed) && |placed| <= amount
      ensures |placed| < amount ==> Elements(draws) <= Elements(placed)
      ensures Cells() == GridOf(size, placed)
    {
      var field := new Cell[size, size]((x, y) => (Clear(0), Unknown));
      var count := 0;
      ghost var kept: seq<Position> := [];
      for i := 0 to |draws|
        invariant kept == Resample(draws[..i], amount) && count == |kept|
        invariant AllInBounds(size, kept)
        invariant forall x, y :: 0 <= x < size && 0 <= y < size ==>
          field[x, y] == (PlacedTile(size, kept, Position(x, y)), Unknown)
      {
        var d := draws[i];
        assert draws[..i + 1][..i] == draws[..i] && draws[..i + 1][i] == d;
        assert Resample(draws[..i + 1], amount) ==
          if |kept| < amount && d !in kept then kept + [d] else kept;
        MineIffDrawn(size, kept, d);
        if count < amount && field[d.x, d.y].0 != Mine {
          PlaceMine(field, kept, d);
          kept := kept + [d];
          count := count + 1;
        }
      }
      assert draws[..|draws|] == draws;
      ResampleProperties(draws, amount);
      mines := field;
      placed := kept;
      new;
      assert Cells() == GridOf(size, placed) by {
        forall x | 0 <= x < size
          ensures Cells()[x] == GridOf(size, placed)[x]
        {
        }
      }
    }

    /**
     * The left-click branch of the game loop on tile `(tileX, tileY)`, with the
     * guard as written: `mines[tileX][tileY].1 = Known` when `0 < tileX < size`
     * and `0 < tileY < size`.
     */
    method Click(tileX: nat, tileY: nat)
      requires Valid()
      modifies mines
      ensures Valid()
      ensures Cells() == AfterClick(old(Cells()), tileX, tileY)
    {
      ghost var g := Cells();
      if tileX > 0 && tileX < Size() {
        if tileY > 0 && tileY < Size() {
          mines[tileX, tileY] := (mines[tileX, tileY].0, Known);
        }
      }
      assert Cells() == AfterClick(g, tileX, tileY) by {
        forall x | 0 <= x < Size()
          ensures Cells()[x] == AfterClick(g, tileX, tileY)[x]
        {
        }
      }
    }

    /** The click handler with the corrected guard: any tile on the grid is revealed. */
    method FixedClick(tileX: nat, tileY: nat)
      requires Valid()
      modifies mines
      ensures Valid()
      ensures Cells() == AfterFixedClick(old(Cells()), tileX, tileY)
    {
      ghost var g := Cells();
      if tileX < Size() && tileY < Size() {
        mines[tileX, tileY] := (mines[tileX, tileY].0, Known);
      }
      assert Cells() == AfterFixedClick(g, tileX, tileY) by {
        forall x | 0 <= x < Size()
          ensures Cells()[x] == AfterFixedClick(g, tileX, tileY)[x]
        {
        }
      }
    }

    /**
     * The drawing pass of `Minefield::draw`: the appearance of every tile,
     * column by column, and whether any tile's palette lookup panics.
     */
    method Draw() returns (frame: seq<seq<Drawn>>, panics: bool)
      requires Valid()
      ensures |frame| == Size() && forall x :: 0 <= x < |frame| ==> |frame[x]| == Size()
      ensures forall x, y :: 0 <= x < Size() && 0 <= y < Size() ==> frame[x][y] == Appearance(mines[x, y])
      ensures panics <==> exists x, y :: 0 <= x < Size() && 0 <= y < Size() && frame[x][y].IndexPanic?
      ensures Distinct(placed) ==> !panics
    {
      frame, panics := [], false;
      for x := 0 to Size()
        invariant |frame| == x && forall a :: 0 <= a < x ==> |frame[a]| == Size()
        invariant forall a, b :: 0 <= a < x && 0 <= b < Size() ==> frame[a][b] == Appearance(mines[a, b])
        invariant panics <==> exists a, b :: 0 <= a < x && 0 <= b < Size() && frame[a][b].IndexPanic?
      {
        var column: seq<Drawn> := [];
        for y := 0 to Size()
          invariant |column| == y && forall b :: 0 <= b < y ==> column[b] == Appearance(mines[x, b])
          invariant panics <==>
            (exists a, b :: 0 <= a < x && 0 <= b < Size() && frame[a][b].IndexPanic?) ||
            (exists b :: 0 <= b < y && column[b].IndexPanic?)
        {
          var drawn := Appearance(mines[x, y]);
          panics := panics || drawn.IndexPanic?;
          column := column + [drawn];
        }
        frame := frame + [column];
      }
      if Distinct(placed) {
        forall x, y | 0 <= x < Size() && 0 <= y < Size()
          ensures !frame[x][y].IndexPanic?
        {
          DistinctNeverPanics(Size(), placed, x, y, mines[x, y].1);
        }
      }
    }
  }
}
