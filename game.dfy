// The engine state of game/game.go: the two grid buffers, gravity, the brush,
// the snow switch and the tick counter, with the per-tick update (snow, paint,
// sweep, swap), the board fixture and the key commands.
//
// The two random sources are inputs: `coins[r][c]` is the coin the grain at
// (r, c) tosses when it is blocked straight ahead, and `snowCols` are the nine
// columns the snow lands in.
module Game {
  import opened Grid
  import opened Physics

  /** Grains of snow dropped into row 0 per tick while snowing. */
  const SnowPerTick: nat := 9

  /** The tick counter is an unsigned 64-bit integer and wraps around. */
  const TickModulus: int := 0x1_0000_0000_0000_0000

  /** A grid position, as the brush addresses it. */
  datatype Cell = Cell(row: int, col: int)

  /** The keys pressed since the previous tick: R, G, 1, 2, 3 and S. */
  datatype Keys = Keys(reset: bool, flipGravity: bool, brushSand: bool, brushWall: bool,
                       brushBlank: bool, toggleSnow: bool)

  predicate InGrid(p: Cell, h: int, w: int)
  {
    0 <= p.row < h && 0 <= p.col < w
  }

  /** Snow columns as the random source supplies them: nine columns of the grid. */
  predicate SnowColumns(cols: seq<int>, w: int)
  {
    |cols| == SnowPerTick && forall i :: 0 <= i < |cols| ==> 0 <= cols[i] < w
  }

  // ---------------------------------------------------------------------
  // The board fixture

  /** The horizontal wall of the fixture: row h / 2, columns w / 4 up to but
      not including 3 * (w / 4). */
  predicate InWall(h: int, w: int, r: int, c: int)
  {
    r == h / 2 && w / 4 <= c < 3 * (w / 4)
  }

  /** The canonical board: Blank everywhere except the fixture wall. */
  function Fixture(h: nat, w: nat): (s: seq<seq<TileType>>)
    ensures Rect(s, h, w)
  {
    seq(h, r => seq(w, c => if InWall(h, w, r, c) then Wall else Blank))
  }

  /** The fixture holds no sand and a wall of 2 * (w / 4) cells. */
  lemma FixtureCounts(h: nat, w: nat)
    requires 0 < h
    ensures Count(Fixture(h, w), Wall) == 2 * (w / 4)
    ensures Count(Fixture(h, w), Sand) == 0
  {
    var f := Fixture(h, w);
    forall r | 0 <= r < h
      ensures RowCount(f[r], Sand) == 0
      ensures r != h / 2 ==> RowCount(f[r], Wall) == 0
    {
      RowCountSegment(f[r], 0, 0, Sand);
      if r != h / 2 {
        RowCountSegment(f[r], 0, 0, Wall);
      }
    }
    RowCountSegment(f[h / 2], w / 4, 3 * (w / 4), Wall);
    CountOnlyRow(f, h / 2, Wall);
    CountOnlyRow(f, h, Sand);
  }

  // ---------------------------------------------------------------------
  // Snow and paint, applied to the grid before the sweep

  /** The grid after grains of snow land, in order, in row 0 at the given columns. */
  function Snowed(s: seq<seq<TileType>>, cols: seq<int>): (s': seq<seq<TileType>>)
    requires |s| > 0 && forall i :: 0 <= i < |cols| ==> 0 <= cols[i] < |s[0]|
    ensures |s'| == |s| && forall r :: 0 <= r < |s| ==> |s'[r]| == |s[r]|
    decreases |cols|
  {
    if cols == [] then s
    else Put(Snowed(s, cols[..|cols| - 1]), 0, cols[|cols| - 1], Sand)
  }

  /** Snow turns exactly the chosen cells of row 0 into sand, whatever they held. */
  lemma {:induction false} SnowedAt(s: seq<seq<TileType>>, cols: seq<int>, r: int, c: int)
    requires |s| > 0 && forall i :: 0 <= i < |cols| ==> 0 <= cols[i] < |s[0]|
    requires 0 <= r < |s| && 0 <= c < |s[r]|
    ensures Snowed(s, cols)[r][c] == if r == 0 && c in cols then Sand else s[r][c]
  {
    if cols != [] {
      var n := |cols| - 1;
      SnowedAt(s, cols[..n], r, c);
      assert cols == cols[..n] + [cols[n]];
    }
  }

  /** The grid after the brush paints one cell, if the button is down. */
  function Painted(s: seq<seq<TileType>>, paint: Option<Cell>, brush: TileType): (s': seq<seq<TileType>>)
    requires paint.Some? ==> 0 <= paint.value.row < |s| && 0 <= paint.value.col < |s[paint.value.row]|
    ensures |s'| == |s| && forall r :: 0 <= r < |s| ==> |s'[r]| == |s[r]|
    ensures forall r, c :: 0 <= r < |s| && 0 <= c < |s[r]| ==>
              s'[r][c] == if paint == Some(Cell(r, c)) then brush else s[r][c]
  {
    if paint.Some? then Put(s, paint.value.row, paint.value.col, brush) else s
  }

  /** The grid the sweep reads: snow first, then paint. */
  function Prepared(s: seq<seq<TileType>>, snowing: bool, cols: seq<int>, paint: Option<Cell>, brush: TileType)
    : (s': seq<seq<TileType>>)
    requires |s| > 0 && Rect(s, |s|, |s[0]|)
    requires snowing ==> SnowColumns(cols, |s[0]|)
    requires paint.Some? ==> InGrid(paint.value, |s|, |s[0]|)
    ensures Rect(s', |s|, |s[0]|)
  {
    Painted(if snowing then Snowed(s, cols) else s, paint, brush)
  }

  /** Paint wins over snow; snow only ever writes sand into row 0; every other cell is untouched. */
  lemma PreparedAt(s: seq<seq<TileType>>, snowing: bool, cols: seq<int>, paint: Option<Cell>, brush: TileType,
                   r: int, c: int)
    requires |s| > 0 && Rect(s, |s|, |s[0]|)
    requires snowing ==> SnowColumns(cols, |s[0]|)
    requires paint.Some? ==> InGrid(paint.value, |s|, |s[0]|)
    requires 0 <= r < |s| && 0 <= c < |s[0]|
    ensures Prepared(s, snowing, cols, paint, brush)[r][c]
            == if paint == Some(Cell(r, c)) then brush
               else if snowing && r == 0 && c in cols then Sand
               else s[r][c]
  {
    if snowing {
      SnowedAt(s, cols, r, c);
    }
  }

  /** Snow does not spare walls: a grain landing on a wall of row 0 replaces it. */
  lemma SnowErasesWall(s: seq<seq<TileType>>, c: int)
    requires |s| > 0 && 0 <= c < |s[0]| && s[0][c] == Wall
    ensures Snowed(s, [c])[0][c] == Sand
    ensures Count(Snowed(s, [c]), Wall) == Count(s, Wall) - 1
  {
    assert Snowed(s, [c]) == Put(s, 0, c, Sand) by {
      assert [c][..0] == [];
    }
    CountPut(s, 0, c, Sand, Wall);
  }

  // ---------------------------------------------------------------------
  // Several ticks in a row

  /** The number of columns of a grid value (its first row's length). */
  function Columns(s: seq<seq<TileType>>): int
  {
    if s == [] then 0 else |s[0]|
  }

  /** `coins` holds one table of coins per tick for at least `n` ticks, each covering an `h` by `w` grid. */
  predicate Tosses(coins: seq<seq<seq<bool>>>, n: nat, h: int, w: int)
  {
    n <= |coins| && forall i :: 0 <= i < n ==> Rect(coins[i], h, w)
  }

  /** The grid after `n` ticks with no snow, no paint and no keys, tick `i`
      tossing the coins of `coins[i]`. */
  function Settle(s: seq<seq<TileType>>, g: int, coins: seq<seq<seq<bool>>>, n: nat): (s': seq<seq<TileType>>)
    requires Rect(s, |s|, Columns(s)) && (g == 1 || g == -1)
    requires Tosses(coins, n, |s|, Columns(s))
    ensures Rect(s', |s|, Columns(s))
    decreases n
  {
    if n == 0 then s else Settle(Sweep(Scan(s, g, coins[0])), g, coins[1..], n - 1)
  }

  /** Over any number of quiet ticks, whatever coins they toss, sand is
      conserved and the walls are exactly the walls of the starting grid. */
  lemma {:induction false} SettleConserves(s: seq<seq<TileType>>, g: int, coins: seq<seq<seq<bool>>>, n: nat)
    requires Rect(s, |s|, Columns(s)) && (g == 1 || g == -1)
    requires Tosses(coins, n, |s|, Columns(s))
    ensures Count(Settle(s, g, coins, n), Sand) == Count(s, Sand)
    ensures forall r, c :: 0 <= r < |s| && 0 <= c < Columns(s) ==>
              (Settle(s, g, coins, n)[r][c] == Wall <==> s[r][c] == Wall)
    decreases n
  {
    if n > 0 {
      var t := Scan(s, g, coins[0]);
      SweepConservesSand(t);
      SweepKeepsWalls(t);
      if |s| == 0 {
        assert Sweep(t) == [];
      }
      assert Tosses(coins[1..], n - 1, |s|, Columns(s));
      SettleConserves(Sweep(t), g, coins[1..], n - 1);
    }
  }

  /** The row a grain starting in row `r` reaches after `n` ticks of free fall: `n` rows on, stopping at the edge. */
  function Reach(h: int, g: int, r: int, n: nat): int
  {
    if g > 0 then (if r + n < h - 1 then r + n else h - 1)
    else (if r - n > 0 then r - n else 0)
  }

  /** One tick of free fall followed by `n - 1` more is `n` ticks of free fall. */
  lemma ReachStep(h: int, g: int, r: int, n: nat)
    requires 0 <= r < h && (g == 1 || g == -1) && 0 < n
    ensures Reach(h, g, if 0 <= r + g < h then r + g else r, n - 1) == Reach(h, g, r, n)
  {
  }

  /** The first of `n` ticks, split off: what the remaining `n - 1` ticks start from. */
  lemma SettleOnce(s: seq<seq<TileType>>, g: int, coins: seq<seq<seq<bool>>>, n: nat)
    requires Rect(s, |s|, Columns(s)) && (g == 1 || g == -1) && 0 < |s|
    requires Tosses(coins, n, |s|, Columns(s)) && 0 < n
    ensures var t := Scan(s, g, coins[0]);
            t.WellFormed() && t.Width() == Columns(s)
            && Rect(Sweep(t), |s|, Columns(s)) && Columns(Sweep(t)) == Columns(s)
            && Tosses(coins[1..], n - 1, |s|, Columns(s))
            && Settle(s, g, coins, n) == Settle(Sweep(t), g, coins[1..], n - 1)
  {
  }

  /** The first tick of a lone grain's fall: one row on, or in place on the edge row. */
  lemma LoneGrainTick(s: seq<seq<TileType>>, g: int, coins: seq<seq<seq<bool>>>, r: int, c: int, n: nat)
    requires Rect(s, |s|, Columns(s)) && (g == 1 || g == -1)
    requires Tosses(coins, n, |s|, Columns(s)) && 0 < n
    requires 0 <= r < |s| && 0 <= c < Columns(s)
    requires s == Put(BlankGrid(|s|, Columns(s)), r, c, Sand)
    ensures var r' := if 0 <= r + g < |s| then r + g else r;
            var s' := Put(BlankGrid(|s|, Columns(s)), r', c, Sand);
            Columns(s') == Columns(s) && Tosses(coins[1..], n - 1, |s|, Columns(s))
            && Settle(s, g, coins, n) == Settle(s', g, coins[1..], n - 1)
  {
    SettleOnce(s, g, coins, n);
    LoneGrain(Scan(s, g, coins[0]), r, c);
  }

  /** A lone grain falls one row per tick in the gravity direction and then rests on the edge row. */
  lemma {:induction false} LoneGrainFalls(s: seq<seq<TileType>>, g: int, coins: seq<seq<seq<bool>>>, r: int, c: int, n: nat)
    requires Rect(s, |s|, Columns(s)) && (g == 1 || g == -1)
    requires Tosses(coins, n, |s|, Columns(s))
    requires 0 <= r < |s| && 0 <= c < Columns(s)
    requires s == Put(BlankGrid(|s|, Columns(s)), r, c, Sand)
    ensures Settle(s, g, coins, n) == Put(BlankGrid(|s|, Columns(s)), Reach(|s|, g, r, n), c, Sand)
    decreases n
  {
    if n > 0 {
      var h, w := |s|, Columns(s);
      var r' := if 0 <= r + g < h then r + g else r;
      LoneGrainTick(s, g, coins, r, c, n);
      LoneGrainFalls(Put(BlankGrid(h, w), r', c, Sand), g, coins[1..], r', c, n - 1);
      ReachStep(h, g, r, n);
    }
  }

  /** On a 5 by 5 board under gravity 1, a lone grain in row 0, column 2 is in
      row 1 after one tick, row 2 after two, on the bottom row after four, and
      still there after a fifth, whatever coins the ticks toss. */
  lemma FallScenario(coins: seq<seq<seq<bool>>>)
    requires Tosses(coins, 5, 5, 5)
    ensures var s := Put(BlankGrid(5, 5), 0, 2, Sand);
            Settle(s, 1, coins, 1) == Put(BlankGrid(5, 5), 1, 2, Sand)
            && Settle(s, 1, coins, 2) == Put(BlankGrid(5, 5), 2, 2, Sand)
            && Settle(s, 1, coins, 4) == Put(BlankGrid(5, 5), 4, 2, Sand)
            && Settle(s, 1, coins, 5) == Put(BlankGrid(5, 5), 4, 2, Sand)
  {
    var s := Put(BlankGrid(5, 5), 0, 2, Sand);
    assert Columns(s) == 5;
    LoneGrainFalls(s, 1, coins, 0, 2, 1);
    LoneGrainFalls(s, 1, coins, 0, 2, 2);
    LoneGrainFalls(s, 1, coins, 0, 2, 4);
    LoneGrainFalls(s, 1, coins, 0, 2, 5);
  }

  // ---------------------------------------------------------------------
  // Key commands

  /** The brush after the number keys: when several are pressed, the last handled (3, then 2, then 1) wins. */
  function BrushAfter(brush: TileType, keys: Keys): (b: TileType)
    ensures !(keys.brushSand || keys.brushWall || keys.brushBlank) ==> b == brush
    ensures keys.brushSand || keys.brushWall || keys.brushBlank ==>
              (keys.brushBlank && b == Blank) || (keys.brushWall && b == Wall) || (keys.brushSand && b == Sand)
    ensures keys.brushBlank ==> b == Blank
    ensures keys.brushWall && !keys.brushBlank ==> b == Wall
  {
    if keys.brushBlank then Blank
    else if keys.brushWall then Wall
    else if keys.brushSand then Sand
    else brush
  }

  /** A fresh grid of the given size; every cell holds the zero tile. */
  method MakeGrid(width: int, height: int) returns (g: array2<TileType>)
    requires 0 <= width && 0 <= height
    ensures fresh(g) && g.Length0 == height && g.Length1 == width
    ensures Cells(g) == BlankGrid(height, width)
  {
    g := new TileType[height, width]((_, _) => Blank);
    HoldsCells(g, BlankGrid(height, width));
  }

  // ---------------------------------------------------------------------
  // The engine

  class Game {
    var ticks: int
    var snowing: bool
    var mode: TileType
    var gridWidth: int
    var gridHeight: int
    var grid: array2<TileType>
    var nextGrid: array2<TileType>
    var gravity: int

    /** Two distinct buffers of the grid's size, gravity of unit size, and a 64-bit tick count. */
    predicate Valid()
      reads this
    {
      0 < gridHeight && 0 < gridWidth
      && grid.Length0 == gridHeight && grid.Length1 == gridWidth
      && nextGrid.Length0 == gridHeight && nextGrid.Length1 == gridWidth
      && grid != nextGrid
      && (gravity == 1 || gravity == -1)
      && 0 <= ticks < TickModulus
    }

    /** New followed by Init: gravity 1, sand brush, no snow, both buffers
        allocated and the fixture drawn into the current one. */
    constructor (width: int, height: int)
      requires 0 < width && 0 < height
      ensures Valid() && fresh(grid) && fresh(nextGrid)
      ensures gridWidth == width && gridHeight == height
      ensures gravity == 1 && mode == Sand && !snowing && ticks == 0
      ensures Cells(grid) == Fixture(height, width)
      ensures Cells(nextGrid) == BlankGrid(height, width)
    {
      var current := MakeGrid(width, height);
      var scratch := MakeGrid(width, height);
      ticks := 0;
      snowing := false;
      mode := Sand;
      gravity := 1;
      gridWidth := width;
      gridHeight := height;
      grid := current;
      nextGrid := scratch;
      new;
      DrawWall();
      HoldsCells(grid, Fixture(height, width));
    }

    /** Draws the fixture wall into the current grid, leaving every other cell as it was. */
    method DrawWall()
      requires Valid()
      modifies grid
      ensures forall r, c :: 0 <= r < gridHeight && 0 <= c < gridWidth ==>
                grid[r, c] == if InWall(gridHeight, gridWidth, r, c) then Wall else old(grid[r, c])
    {
      var width := gridWidth / 4;
      var i := width;
      while i < width * 3
        invariant width <= i <= width * 3
        invariant forall r, c :: 0 <= r < gridHeight && 0 <= c < gridWidth ==>
                    grid[r, c] == if r == gridHeight / 2 && width <= c < i then Wall else old(grid[r, c])
      {
        grid[gridHeight / 2, i] := Wall;
        i := i + 1;
      }
    }

    /** Key R: the current grid becomes the fixture, whatever it held; the scratch grid is not touched. */
    method ResetGrid()
      requires Valid()
      modifies grid
      ensures Cells(grid) == Fixture(gridHeight, gridWidth)
    {
      Reset(grid);
      DrawWall();
      HoldsCells(grid, Fixture(gridHeight, gridWidth));
    }

    /** The key commands, in the order they are handled: R, then the scalar commands. */
    method HandleKeys(keys: Keys)
      requires Valid()
      modifies this`gravity, this`mode, this`snowing, grid
      ensures Valid()
      ensures Cells(grid) == if keys.reset then Fixture(gridHeight, gridWidth) else old(Cells(grid))
      ensures gravity == if keys.flipGravity then -old(gravity) else old(gravity)
      ensures mode == BrushAfter(old(mode), keys)
      ensures snowing == (old(snowing) != keys.toggleSnow)
    {
      if keys.reset {
        ResetGrid();
      }
      SetScalars(keys);
    }

    /** Keys G, 1, 2, 3 and S, in that order: negate gravity, choose the brush, toggle snow. */
    method SetScalars(keys: Keys)
      requires Valid()
      modifies this`gravity, this`mode, this`snowing
      ensures Valid()
      ensures gravity == if keys.flipGravity then -old(gravity) else old(gravity)
      ensures mode == BrushAfter(old(mode), keys)
      ensures snowing == (old(snowing) != keys.toggleSnow)
    {
      if keys.flipGravity {
        gravity := -gravity;
      }
      if keys.brushSand {
        mode := Sand;
      }
      if keys.brushWall {
        mode := Wall;
      }
      if keys.brushBlank {
        mode := Blank;
      }
      if keys.toggleSnow {
        snowing := !snowing;
      }
    }

    /** One visit of the sweep: the cell (iy, ix) of the current grid writes
        into the scratch grid exactly what `StepCell` says. */
    method VisitCell(iy: int, ix: int, coins: seq<seq<bool>>, ghost t: Scan, ghost n: seq<seq<TileType>>)
      requires Valid() && t.WellFormed() && t.gravity == gravity && t.coins == coins
      requires Holds(grid, t.before) && Holds(nextGrid, n)
      requires 0 <= iy < gridHeight && 0 <= ix < gridWidth
      modifies nextGrid
      ensures Holds(nextGrid, StepCell(t, iy, ix, n))
    {
      var cell := grid[iy, ix];
      if cell == Wall {
        nextGrid[iy, ix] := Wall;
        return;
      }
      if cell == Blank {
        return;
      }
      MoveGrain(iy, ix, coins, t, n);
    }

    /** The grain at (iy, ix) lands where `SandTarget` says: straight on, to
        the side its coin picks, to the other side, or in place. */
    method MoveGrain(iy: int, ix: int, coins: seq<seq<bool>>, ghost t: Scan, ghost n: seq<seq<TileType>>)
      requires Valid() && t.WellFormed() && t.gravity == gravity && t.coins == coins
      requires Holds(grid, t.before) && Holds(nextGrid, n)
      requires 0 <= iy < gridHeight && 0 <= ix < gridWidth && grid[iy, ix] == Sand
      modifies nextGrid
      ensures Holds(nextGrid, Put(n, SandTarget(t, iy, ix, n).0, SandTarget(t, iy, ix, n).1, Sand))
    {
      assert t.Height() == gridHeight && t.Width() == gridWidth;
      var nextY := iy + gravity;
      if nextY == gridHeight || nextY < 0 {
        nextGrid[iy, ix] := grid[iy, ix];
        return;
      }
      if nextGrid[nextY, ix] == Blank {
        nextGrid[nextY, ix] := Sand;
        return;
      }
      if coins[iy][ix] {
        if ix > 0 && nextGrid[nextY, ix - 1] == Blank {
          nextGrid[nextY, ix - 1] := Sand;
          return;
        } else if ix + 1 < gridWidth && nextGrid[nextY, ix + 1] == Blank {
          nextGrid[nextY, ix + 1] := Sand;
          return;
        }
      } else {
        if ix + 1 < gridWidth && nextGrid[nextY, ix + 1] == Blank {
          nextGrid[nextY, ix + 1] := Sand;
          return;
        } else if ix > 0 && nextGrid[nextY, ix - 1] == Blank {
          nextGrid[nextY, ix - 1] := Sand;
          return;
        }
      }
      nextGrid[iy, ix] := grid[iy, ix];
    }

    /** Snow: nine grains land in row 0 of the current grid, at the given columns in turn. */
    method DropSnow(snowCols: seq<int>)
      requires Valid() && SnowColumns(snowCols, gridWidth)
      modifies grid
      ensures Cells(grid) == Snowed(old(Cells(grid)), snowCols)
    {
      ghost var s0 := Cells(grid);
      var i := 1;
      while i < 10
        invariant 1 <= i <= 10
        invariant Holds(grid, Snowed(s0, snowCols[..i - 1]))
      {
        assert snowCols[..i] == snowCols[..i - 1] + [snowCols[i - 1]];
        grid[0, snowCols[i - 1]] := Sand;
        i := i + 1;
      }
      assert snowCols[..9] == snowCols;
      HoldsCells(grid, Snowed(s0, snowCols));
    }

    /** With the mouse button down, the brush sets the type of the cell under the cursor. */
    method Paint(paint: Option<Cell>)
      requires Valid() && (paint.Some? ==> InGrid(paint.value, gridHeight, gridWidth))
      modifies grid
      ensures Cells(grid) == Painted(old(Cells(grid)), paint, mode)
    {
      ghost var s0 := Cells(grid);
      if paint.Some? {
        grid[paint.value.row, paint.value.col] := mode;
      }
      HoldsCells(grid, Painted(s0, paint, mode));
    }

    /** The visits of one row of the sweep, the `k`-th row in visiting order. */
    method SweepRow(iy: int, coins: seq<seq<bool>>, ghost t: Scan, ghost k: int)
      requires Valid() && t.WellFormed() && t.gravity == gravity && t.coins == coins
      requires Holds(grid, t.before)
      requires 0 <= k < gridHeight && iy == VisitRow(gravity, gridHeight, k)
      requires Holds(nextGrid, SweepRows(t, k))
      modifies nextGrid
      ensures Holds(nextGrid, SweepRows(t, k + 1))
    {
      assert t.Height() == gridHeight && t.Width() == gridWidth;
      var sx, dx, ex := 0, 1, gridWidth;
      if iy % 2 == 0 {
        sx, ex, dx := gridWidth - 1, -1, -1;
      }
      var ix := sx;
      ghost var j := 0;
      while ix != ex
        invariant 0 <= j <= gridWidth
        invariant ix == VisitCol(gridWidth, iy, j) && ex == VisitCol(gridWidth, iy, gridWidth)
        invariant dx == if iy % 2 == 0 then -1 else 1
        invariant Holds(nextGrid, ScanRow(t, iy, j, SweepRows(t, k)))
        decreases gridWidth - j
      {
        ghost var n := ScanRow(t, iy, j, SweepRows(t, k));
        VisitCell(iy, ix, coins, t, n);
        assert ScanRow(t, iy, j + 1, SweepRows(t, k)) == StepCell(t, iy, ix, n);
        ix := ix + dx;
        j := j + 1;
      }
      assert SweepRows(t, k + 1) == ScanRow(t, iy, gridWidth, SweepRows(t, k));
    }

    /** The sweep: the scratch grid, cleared beforehand, receives one sweep of the current grid. */
    method SweepGrid(coins: seq<seq<bool>>, ghost t: Scan)
      requires Valid() && t == Scan(Cells(grid), gravity, coins) && Rect(coins, gridHeight, gridWidth)
      requires Cells(nextGrid) == BlankGrid(gridHeight, gridWidth)
      modifies nextGrid
      ensures Cells(nextGrid) == Sweep(t)
    {
      CellsHold(grid);
      CellsHold(nextGrid);
      SweepAllRows(coins, t);
      HoldsCells(nextGrid, Sweep(t));
    }

    /** Every row in the order gravity fixes. */
    method SweepAllRows(coins: seq<seq<bool>>, ghost t: Scan)
      requires Valid() && t.WellFormed() && t.gravity == gravity && t.coins == coins
      requires Holds(grid, t.before) && Holds(nextGrid, BlankGrid(gridHeight, gridWidth))
      modifies nextGrid
      ensures Holds(nextGrid, Sweep(t))
    {
      assert t.Height() == gridHeight && t.Width() == gridWidth;
      var sy, ey, dy := 0, gridHeight, 1;
      if gravity > 0 {
        sy, ey, dy := gridHeight - 1, -1, -1;
      }
      var iy := sy;
      ghost var k := 0;
      while iy != ey
        invariant 0 <= k <= gridHeight
        invariant iy == VisitRow(gravity, gridHeight, k) && ey == VisitRow(gravity, gridHeight, gridHeight)
        invariant dy == if gravity > 0 then -1 else 1
        invariant Holds(nextGrid, SweepRows(t, k))
        decreases gridHeight - k
      {
        SweepRow(iy, coins, t, k);
        iy := iy + dy;
        k := k + 1;
      }
    }

    /** The first half of a tick: clear the scratch grid, then drop snow and
        paint into the current grid. */
    method Prepare(snowCols: seq<int>, paint: Option<Cell>)
      requires Valid()
      requires snowing ==> SnowColumns(snowCols, gridWidth)
      requires paint.Some? ==> InGrid(paint.value, gridHeight, gridWidth)
      modifies grid, nextGrid
      ensures Cells(grid) == Prepared(old(Cells(grid)), snowing, snowCols, paint, mode)
      ensures Cells(nextGrid) == BlankGrid(gridHeight, gridWidth)
    {
      ghost var s0 := Cells(grid);
      Reset(nextGrid);
      if snowing {
        DropSnow(snowCols);
      }
      assert Cells(grid) == if snowing then Snowed(s0, snowCols) else s0;
      Paint(paint);
    }

    /** One tick of the grid: prepare, sweep the current grid into the
        scratch grid, then swap the two buffers. */
    method UpdateGrid(coins: seq<seq<bool>>, snowCols: seq<int>, paint: Option<Cell>)
      requires Valid()
      requires Rect(coins, gridHeight, gridWidth)
      requires snowing ==> SnowColumns(snowCols, gridWidth)
      requires paint.Some? ==> InGrid(paint.value, gridHeight, gridWidth)
      modifies this`grid, this`nextGrid, grid, nextGrid
      ensures Valid()
      ensures grid == old(nextGrid) && nextGrid == old(grid)
      ensures Cells(nextGrid) == Prepared(old(Cells(grid)), snowing, snowCols, paint, mode)
      ensures Cells(grid) == Sweep(Scan(Cells(nextGrid), gravity, coins))
    {
      Prepare(snowCols, paint);
      assert Valid();
      ghost var t := Scan(Cells(grid), gravity, coins);
      SweepGrid(coins, t);
      assert Valid();
      grid, nextGrid := nextGrid, grid;
    }

    /** With no snow and no paint a tick conserves sand; in every tick the new
        grid has walls exactly where the grid read had them. */
    lemma TickGuarantees(before: seq<seq<TileType>>, after: seq<seq<TileType>>, coins: seq<seq<bool>>,
                         snowCols: seq<int>, paint: Option<Cell>)
      requires Valid() && Rect(before, gridHeight, gridWidth) && Rect(coins, gridHeight, gridWidth)
      requires snowing ==> SnowColumns(snowCols, gridWidth)
      requires paint.Some? ==> InGrid(paint.value, gridHeight, gridWidth)
      requires after == Sweep(Scan(Prepared(before, snowing, snowCols, paint, mode), gravity, coins))
      ensures !snowing && paint.None? ==> Count(after, Sand) == Count(before, Sand)
      ensures forall r, c :: 0 <= r < gridHeight && 0 <= c < gridWidth ==>
                (after[r][c] == Wall <==> Prepared(before, snowing, snowCols, paint, mode)[r][c] == Wall)
    {
      var t := Scan(Prepared(before, snowing, snowCols, paint, mode), gravity, coins);
      SweepKeepsWalls(t);
      SweepConservesSand(t);
    }

    /** One frame: count the tick (modulo 2^64), then handle the keys and update the grid. */
    method Update(keys: Keys, paint: Option<Cell>, coins: seq<seq<bool>>, snowCols: seq<int>)
      requires Valid()
      requires Rect(coins, gridHeight, gridWidth)
      requires (snowing != keys.toggleSnow) ==> SnowColumns(snowCols, gridWidth)
      requires paint.Some? ==> InGrid(paint.value, gridHeight, gridWidth)
      modifies this`ticks, this`gravity, this`mode, this`snowing, this`grid, this`nextGrid, grid, nextGrid
      ensures Valid()
      ensures ticks == (old(ticks) + 1) % TickModulus
      ensures Stepped(old(Cells(grid)), old(gravity), old(mode), old(snowing), old(grid), old(nextGrid),
                      keys, paint, coins, snowCols)
    {
      ticks := (ticks + 1) % TickModulus;
      Step(keys, paint, coins, snowCols);
    }

    /** The state after the keys and the grid update of one frame, from the
        current grid `s`, the scalar state and the two buffers before it. */
    ghost predicate Stepped(s: seq<seq<TileType>>, gravity0: int, mode0: TileType, snowing0: bool,
                            grid0: array2<TileType>, nextGrid0: array2<TileType>,
                            keys: Keys, paint: Option<Cell>, coins: seq<seq<bool>>, snowCols: seq<int>)
      reads this, grid, nextGrid
    {
      Valid()
      && gravity == (if keys.flipGravity then -gravity0 else gravity0)
      && mode == BrushAfter(mode0, keys)
      && snowing == (snowing0 != keys.toggleSnow)
      && grid == nextGrid0 && nextGrid == grid0
      && Rect(s, gridHeight, gridWidth) && Rect(coins, gridHeight, gridWidth)
      && (snowing ==> SnowColumns(snowCols, gridWidth))
      && (paint.Some? ==> InGrid(paint.value, gridHeight, gridWidth))
      && Cells(nextGrid) == Prepared(if keys.reset then Fixture(gridHeight, gridWidth) else s,
                                     snowing, snowCols, paint, mode)
      && Cells(grid) == Sweep(Scan(Cells(nextGrid), gravity, coins))
    }

    /** The keys, then the grid update. */
    method Step(keys: Keys, paint: Option<Cell>, coins: seq<seq<bool>>, snowCols: seq<int>)
      requires Valid()
      requires Rect(coins, gridHeight, gridWidth)
      requires (snowing != keys.toggleSnow) ==> SnowColumns(snowCols, gridWidth)
      requires paint.Some? ==> InGrid(paint.value, gridHeight, gridWidth)
      modifies this`gravity, this`mode, this`snowing, this`grid, this`nextGrid, grid, nextGrid
      ensures Stepped(old(Cells(grid)), old(gravity), old(mode), old(snowing), old(grid), old(nextGrid),
                      keys, paint, coins, snowCols)
    {
      HandleKeys(keys);
      ghost var handled := Cells(grid);
      assert Valid();
      UpdateGrid(coins, snowCols, paint);
      assert Cells(nextGrid) == Prepared(handled, snowing, snowCols, paint, mode);
    }
  }
}
