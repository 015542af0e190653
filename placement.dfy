/**
 * What `Minefield::new` computes, as functions of the drawn positions: which
 * cells are mines, what each clear cell's counter holds, and how those relate
 * to the mines actually around it.
 */
module Placement {
  import opened Tiles

  /** A grid coordinate; the grid is indexed `[x][y]`, the outer index being x. */
  datatype Position = Position(x: nat, y: nat)

  predicate InBounds(size: nat, p: Position)
  {
    p.x < size && p.y < size
  }

  predicate AllInBounds(size: nat, ps: seq<Position>)
  {
    forall i :: 0 <= i < |ps| ==> InBounds(size, ps[i])
  }

  /** `n.saturating_sub(1)`: the first index of the neighbour range around `n`. */
  function RangeStart(n: nat): (s: nat)
    ensures s <= n && n - s <= 1
    ensures n > 0 ==> s == n - 1
  {
    if n == 0 then 0 else n - 1
  }

  /** `(n + 2).min(size)`: one past the last index of the neighbour range around `n`. */
  function RangeEnd(size: nat, n: nat): (e: nat)
    ensures e <= size && e <= n + 2
    ensures n < size ==> n < e && (n + 2 <= size ==> e == n + 2)
  {
    if n + 2 < size then n + 2 else size
  }

  /** Cell `c` lies in the clipped window that the loops visit around position `p`. */
  predicate InWindow(size: nat, c: Position, p: Position)
  {
    RangeStart(p.x) <= c.x < RangeEnd(size, p.x) && RangeStart(p.y) <= c.y < RangeEnd(size, p.y)
  }

  /** Chebyshev distance at most one: `c` is `p` or one of its eight neighbours. */
  predicate Near(c: Position, p: Position)
  {
    -1 <= c.x - p.x <= 1 && -1 <= c.y - p.y <= 1
  }

  /** Counter increment of the inner loop: only a clear cell is touched. */
  function Bump(t: Tile): (r: Tile)
    ensures r.Mine? <==> t.Mine?
    ensures t.Clear? ==> r.value == t.value + 1
  {
    match t
    case Mine => Mine
    case Clear(v) => Clear(v + 1)
  }

  /**
   * The tile at `c` once every position of `ps` has been processed in order:
   * the position becomes a mine, then every clear cell of its window is bumped.
   */
  function PlacedTile(size: nat, ps: seq<Position>, c: Position): (t: Tile)
    ensures ps != [] && c == ps[|ps| - 1] ==> t == Mine
    ensures t.Clear? ==> t.value <= |ps|
    decreases |ps|
  {
    if ps == [] then Clear(0)
    else
      var p := ps[|ps| - 1];
      var before := if c == p then Mine else PlacedTile(size, ps[..|ps| - 1], c);
      if InWindow(size, c, p) then Bump(before) else before
  }

  /** How many of the positions (counted with repetition) have `c` in their window. */
  function Hits(size: nat, ps: seq<Position>, c: Position): (n: nat)
    ensures n <= |ps|
    decreases |ps|
  {
    if ps == [] then 0
    else Hits(size, ps[..|ps| - 1], c) + (if InWindow(size, c, ps[|ps| - 1]) then 1 else 0)
  }

  /** The grid `Minefield::new` builds, as nested sequences indexed `[x][y]`. */
  function GridOf(size: nat, ps: seq<Position>): (g: seq<seq<Cell>>)
    ensures |g| == size && forall x :: 0 <= x < size ==> |g[x]| == size
    ensures forall x, y :: 0 <= x < size && 0 <= y < size ==> g[x][y].1 == Unknown
  {
    seq(size, x requires 0 <= x < size =>
      seq(size, y requires 0 <= y < size => (PlacedTile(size, ps, Position(x, y)), Unknown)))
  }

  predicate Distinct(ps: seq<Position>)
  {
    forall i, j :: 0 <= i < j < |ps| ==> ps[i] != ps[j]
  }

  function Elements(ps: seq<Position>): set<Position>
  {
    set p | p in ps
  }

  /** Every position of a `size × size` grid. */
  function AllCells(size: nat): (s: set<Position>)
    ensures forall p :: p in s <==> InBounds(size, p)
  {
    set x: nat, y: nat | x < size && y < size :: Position(x, y)
  }

  predicate Square(g: seq<seq<Cell>>)
  {
    forall x :: 0 <= x < |g| ==> |g[x]| == |g|
  }

  /** The cells of `g` whose content is a mine. */
  function MineSet(g: seq<seq<Cell>>): set<Position>
    requires Square(g)
  {
    set q | q in AllCells(|g|) && g[q.x][q.y].0 == Mine
  }

  /** The mines among the (edge-clipped) eight neighbours of `c`. */
  function MinesAround(g: seq<seq<Cell>>, c: Position): set<Position>
    requires Square(g)
  {
    set q | q in AllCells(|g|) && Near(q, c) && q != c && g[q.x][q.y].0 == Mine
  }

  /** Every clear cell's counter equals the number of mines next to it. */
  predicate CountsExact(g: seq<seq<Cell>>)
    requires Square(g)
  {
    forall x, y :: 0 <= x < |g| && 0 <= y < |g| && g[x][y].0.Clear? ==>
      g[x][y].0.value == |MinesAround(g, Position(x, y))|
  }

  // ---------------------------------------------------------------------
  // The window arithmetic

  /**
   * For an in-bounds position the two neighbour ranges stay inside `0..size`,
   * and the clipped window is exactly the in-bounds part of the 3×3 block.
   */
  lemma WindowIsClippedBlock(size: nat, c: Position, p: Position)
    requires InBounds(size, p)
    ensures RangeStart(p.x) <= p.x < RangeEnd(size, p.x) <= size
    ensures RangeStart(p.y) <= p.y < RangeEnd(size, p.y) <= size
    ensures InWindow(size, c, p) <==> InBounds(size, c) && Near(c, p)
  {
  }

  // ---------------------------------------------------------------------
  // Mines

  /** A cell ends up a mine exactly when it was drawn; so a mine stays a mine. */
  lemma {:induction false} MineIffDrawn(size: nat, ps: seq<Position>, c: Position)
    ensures PlacedTile(size, ps, c) == Mine <==> c in ps
    decreases |ps|
  {
    if ps != [] {
      var init := ps[..|ps| - 1];
      MineIffDrawn(size, init, c);
      assert ps == init + [ps[|ps| - 1]];
    }
  }

  /** Once a position is a mine, processing further draws never clears it. */
  lemma MineStaysMine(size: nat, ps: seq<Position>, i: nat, c: Position)
    requires i <= |ps| && PlacedTile(size, ps[..i], c) == Mine
    ensures PlacedTile(size, ps, c) == Mine
  {
    MineIffDrawn(size, ps[..i], c);
    MineIffDrawn(size, ps, c);
  }

  /** A cell that was never drawn is clear, and its counter is its number of window hits. */
  lemma {:induction false} ClearCountsHits(size: nat, ps: seq<Position>, c: Position)
    requires c !in ps
    ensures PlacedTile(size, ps, c) == Clear(Hits(size, ps, c))
    decreases |ps|
  {
    if ps != [] {
      var init := ps[..|ps| - 1];
      assert ps == init + [ps[|ps| - 1]];
      ClearCountsHits(size, init, c);
    }
  }

  /** With no duplicate draws, the window hits of `c` are distinct positions. */
  lemma {:induction false} HitsOfDistinct(size: nat, ps: seq<Position>, c: Position)
    requires Distinct(ps)
    ensures Hits(size, ps, c) == |set p | p in ps && InWindow(size, c, p)|
    decreases |ps|
  {
    var s := set p | p in ps && InWindow(size, c, p);
    if ps == [] {
      assert s == {};
    } else {
      var init, last := ps[..|ps| - 1], ps[|ps| - 1];
      var s0 := set p | p in init && InWindow(size, c, p);
      HitsOfDistinct(size, init, c);
      assert ps == init + [last];
      assert last !in init;
      if InWindow(size, c, last) {
        assert s == s0 + {last};
      } else {
        assert s == s0;
      }
    }
  }

  /** Each drawn position is a mine of the built grid, and nothing else is. */
  lemma MinesAreDrawnPositions(size: nat, ps: seq<Position>)
    requires AllInBounds(size, ps)
    ensures Square(GridOf(size, ps))
    ensures MineSet(GridOf(size, ps)) == Elements(ps)
  {
    var g: seq<seq<Cell>> := GridOf(size, ps);
    forall q: Position | q in AllCells(size)
      ensures g[q.x][q.y].0 == Mine <==> q in ps
    {
      MineIffDrawn(size, ps, q);
    }
    forall q | q in Elements(ps)
      ensures q in AllCells(size)
    {
      var i :| 0 <= i < |ps| && ps[i] == q;
    }
  }

  /** A sequence has at most as many distinct elements as entries, and exactly as many iff it has no repeats. */
  lemma {:induction false} ElementsCount(ps: seq<Position>)
    ensures |Elements(ps)| <= |ps|
    ensures |Elements(ps)| == |ps| <==> Distinct(ps)
    decreases |ps|
  {
    if ps != [] {
      var init, last := ps[..|ps| - 1], ps[|ps| - 1];
      ElementsCount(init);
      assert ps == init + [last];
      assert Elements(ps) == Elements(init) + {last};
      if last in init {
        var j :| 0 <= j < |init| && init[j] == last;
        assert ps[j] == ps[|ps| - 1];
        assert Elements(ps) == Elements(init);
      } else {
        assert |Elements(ps)| == |Elements(init)| + 1;
        if Distinct(init) {
          forall i, j | 0 <= i < j < |ps|
            ensures ps[i] != ps[j]
          {
            if j == |ps| - 1 {
              assert ps[i] in init;
            } else {
              assert ps[i] == init[i] && ps[j] == init[j];
            }
          }
        } else {
          var i, j :| 0 <= i < j < |init| && init[i] == init[j];
          assert ps[i] == ps[j];
        }
      }
    }
  }

  /**
   * The number of mines is the number of distinct drawn positions: at most
   * `amount`, and exactly `amount` when no position was drawn twice.
   */
  lemma MineCount(size: nat, ps: seq<Position>)
    requires AllInBounds(size, ps)
    ensures Square(GridOf(size, ps))
    ensures |MineSet(GridOf(size, ps))| <= |ps|
    ensures |MineSet(GridOf(size, ps))| == |ps| <==> Distinct(ps)
  {
    MinesAreDrawnPositions(size, ps);
    ElementsCount(ps);
  }

  // ---------------------------------------------------------------------
  // Counters

  /** The mines around an undrawn in-bounds cell are the drawn positions whose window holds it. */
  lemma MinesAroundAreHits(size: nat, ps: seq<Position>, c: Position)
    requires AllInBounds(size, ps) && InBounds(size, c) && c !in ps
    ensures Square(GridOf(size, ps))
    ensures MinesAround(GridOf(size, ps), c) == set p | p in ps && InWindow(size, c, p)
  {
    var g: seq<seq<Cell>> := GridOf(size, ps);
    forall q: Position | q in AllCells(size)
      ensures g[q.x][q.y].0 == Mine <==> q in ps
    {
      MineIffDrawn(size, ps, q);
    }
    forall q | q in ps
      ensures InBounds(size, q)
      ensures InWindow(size, c, q) <==> Near(q, c) && q != c
    {
      var i :| 0 <= i < |ps| && ps[i] == q;
      WindowIsClippedBlock(size, c, q);
    }
  }

  /**
   * The central invariant: when no position is drawn twice, every clear cell's
   * counter equals the number of mines among its clipped eight neighbours.
   */
  lemma DistinctCountsExact(size: nat, ps: seq<Position>)
    requires AllInBounds(size, ps) && Distinct(ps)
    ensures Square(GridOf(size, ps))
    ensures CountsExact(GridOf(size, ps))
  {
    var g: seq<seq<Cell>> := GridOf(size, ps);
    forall x: nat, y: nat | x < size && y < size && g[x][y].0.Clear?
      ensures g[x][y].0.value == |MinesAround(g, Position(x, y))|
    {
      var c := Position(x, y);
      MineIffDrawn(size, ps, c);
      ClearCountsHits(size, ps, c);
      HitsOfDistinct(size, ps, c);
      MinesAroundAreHits(size, ps, c);
    }
  }

  /**
   * Whatever the draws, a counter never exceeds `amount`: with the game's
   * `amount` of 64 the `u8` counter cannot overflow.
   */
  lemma CounterAtMostAmount(size: nat, ps: seq<Position>, x: nat, y: nat)
    requires x < size && y < size
    ensures GridOf(size, ps)[x][y].0.Clear? ==> GridOf(size, ps)[x][y].0.value <= |ps|
  {
    var c := Position(x, y);
    MineIffDrawn(size, ps, c);
    if c !in ps {
      ClearCountsHits(size, ps, c);
    }
  }

  /** The eight cells around `c`, with the row or column `-1` folded onto `c`'s own. */
  function Ring(c: Position): set<Position>
  {
    var lx, ly := RangeStart(c.x), RangeStart(c.y);
    {Position(lx, ly), Position(lx, c.y), Position(lx, c.y + 1),
     Position(c.x, ly), Position(c.x, c.y + 1),
     Position(c.x + 1, ly), Position(c.x + 1, c.y), Position(c.x + 1, c.y + 1)}
  }

  lemma RingSize(c: Position)
    ensures |Ring(c)| <= 8
  {
    var lx, ly := RangeStart(c.x), RangeStart(c.y);
    var a := {Position(lx, ly), Position(lx, c.y), Position(lx, c.y + 1), Position(c.x, ly)};
    var b := {Position(c.x, c.y + 1), Position(c.x + 1, ly), Position(c.x + 1, c.y), Position(c.x + 1, c.y + 1)};
    assert Ring(c) == a + b;
  }

  lemma SubsetSize(a: set<Position>, b: set<Position>)
    requires a <= b
    ensures |a| <= |b|
  {
    assert b == a + (b - a);
  }

  /** No cell has more than eight neighbours, so an exact counter is at most 8. */
  lemma {:induction false} ExactCountersShowable(g: seq<seq<Cell>>)
    requires Square(g) && CountsExact(g)
    ensures forall x, y :: 0 <= x < |g| && 0 <= y < |g| && g[x][y].0.Clear? ==> g[x][y].0.value <= 8
  {
    forall x: nat, y: nat | x < |g| && y < |g| && g[x][y].0.Clear?
      ensures g[x][y].0.value <= 8
    {
      AtMostEightMinesAround(g, Position(x, y));
    }
  }

  /** Whatever the grid, at most eight mines surround a cell. */
  lemma AtMostEightMinesAround(g: seq<seq<Cell>>, c: Position)
    requires Square(g)
    ensures |MinesAround(g, c)| <= 8
  {
    forall q | q in MinesAround(g, c)
      ensures q in Ring(c)
    {
      NeighbourInRing(c, q);
    }
    SubsetSize(MinesAround(g, c), Ring(c));
    RingSize(c);
  }

  lemma NeighbourInRing(c: Position, q: Position)
    requires Near(q, c) && q != c
    ensures q in Ring(c)
  {
    var lx, ly := RangeStart(c.x), RangeStart(c.y);
    assert q.x == lx || q.x == c.x || q.x == c.x + 1;
    assert q.y == ly || q.y == c.y || q.y == c.y + 1;
  }

  /**
   * With distinct draws, drawing any cell of the built grid, whatever its
   * visibility, never indexes the palette out of range.
   */
  lemma DistinctNeverPanics(size: nat, ps: seq<Position>, x: nat, y: nat, d: TileData)
    requires AllInBounds(size, ps) && Distinct(ps) && x < size && y < size
    ensures Appearance((GridOf(size, ps)[x][y].0, d)).Drawn?
  {
    DistinctCountsExact(size, ps);
    ExactCountersShowable(GridOf(size, ps));
    NoPanicWhenCountersBounded((GridOf(size, ps)[x][y].0, d));
  }

  // ---------------------------------------------------------------------
  // Resampling: skip a draw that repeats an earlier one

  /**
   * The positions that a resampling generator keeps from the stream of draws
   * `ds`: a draw is kept when fewer than `amount` mines are placed and it does
   * not repeat a kept position.
   */
  function Resample(ds: seq<Position>, amount: nat): (ps: seq<Position>)
    ensures |ps| <= amount
    decreases |ds|
  {
    if ds == [] then []
    else
      var kept := Resample(ds[..|ds| - 1], amount);
      var d := ds[|ds| - 1];
      if |kept| < amount && d !in kept then kept + [d] else kept
  }

  /**
   * The kept positions are distinct draws, at most `amount` of them, and
   * fewer only when every draw is among them.
   */
  lemma {:induction false} ResampleProperties(ds: seq<Position>, amount: nat)
    ensures Distinct(Resample(ds, amount))
    ensures |Resample(ds, amount)| <= amount
    ensures Elements(Resample(ds, amount)) <= Elements(ds)
    ensures |Resample(ds, amount)| < amount ==> Elements(ds) <= Elements(Resample(ds, amount))
    decreases |ds|
  {
    if ds != [] {
      var init, d := ds[..|ds| - 1], ds[|ds| - 1];
      ResampleProperties(init, amount);
      assert ds == init + [d];
      assert Elements(ds) == Elements(init) + {d};
      var kept := Resample(init, amount);
      if |kept| < amount && d !in kept {
        assert Elements(kept + [d]) == Elements(kept) + {d};
      }
    }
  }

  lemma ResampleInBounds(size: nat, ds: seq<Position>, amount: nat)
    requires AllInBounds(size, ds)
    ensures AllInBounds(size, Resample(ds, amount))
  {
  }

  /** Whatever the draws, a resampled grid has exact counters and at most `amount` mines. */
  lemma ResampledCountsExact(size: nat, ds: seq<Position>, amount: nat)
    requires AllInBounds(size, ds)
    ensures Square(GridOf(size, Resample(ds, amount)))
    ensures CountsExact(GridOf(size, Resample(ds, amount)))
    ensures |MineSet(GridOf(size, Resample(ds, amount)))| <= amount
  {
    ResampleProperties(ds, amount);
    ResampleInBounds(size, ds, amount);
    DistinctCountsExact(size, Resample(ds, amount));
    MineCount(size, Resample(ds, amount));
  }

  // ---------------------------------------------------------------------
  // Repeated draws, as the generator is written

  /**
   * Drawing the centre of a 3×3 field twice leaves one mine for an `amount`
   * of two, and the corner counter at 2 although only one mine touches it.
   */
  lemma DuplicateDrawMiscounts()
    ensures Square(GridOf(3, [Position(1, 1), Position(1, 1)]))
    ensures |MineSet(GridOf(3, [Position(1, 1), Position(1, 1)]))| == 1
    ensures GridOf(3, [Position(1, 1), Position(1, 1)])[0][0].0 == Clear(2)
    ensures |MinesAround(GridOf(3, [Position(1, 1), Position(1, 1)]), Position(0, 0))| == 1
    ensures !CountsExact(GridOf(3, [Position(1, 1), Position(1, 1)]))
  {
    var ps := [Position(1, 1), Position(1, 1)];
    var g: seq<seq<Cell>> := GridOf(3, ps);
    MinesAreDrawnPositions(3, ps);
    assert Elements(ps) == {Position(1, 1)};
    MinesAroundAreHits(3, ps, Position(0, 0));
    assert (set p | p in ps && InWindow(3, Position(0, 0), p)) == {Position(1, 1)};
    ClearCountsHits(3, ps, Position(0, 0));
    assert ps[..1] == [Position(1, 1)] && ps[..1][..0] == [];
    assert Hits(3, ps, Position(0, 0)) == 2;
  }

  /** A cell that every draw's window holds is hit once per draw. */
  lemma {:induction false} HitByEveryDraw(size: nat, ps: seq<Position>, c: Position)
    requires forall i :: 0 <= i < |ps| ==> InWindow(size, c, ps[i])
    ensures Hits(size, ps, c) == |ps|
    decreases |ps|
  {
    if ps != [] {
      HitByEveryDraw(size, ps[..|ps| - 1], c);
    }
  }

  /** With resampling, whatever the draws, drawing any cell of the grid never panics. */
  lemma ResampledNeverPanics(size: nat, ds: seq<Position>, amount: nat, x: nat, y: nat, d: TileData)
    requires AllInBounds(size, ds) && x < size && y < size
    ensures Appearance((GridOf(size, Resample(ds, amount))[x][y].0, d)).Drawn?
  {
    ResampleProperties(ds, amount);
    ResampleInBounds(size, ds, amount);
    DistinctNeverPanics(size, Resample(ds, amount), x, y, d);
  }
}
