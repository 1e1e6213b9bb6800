// The physics sweep of updateGrid (game/game.go:313-388) as a function on
// grid values, and what it guarantees: walls stay, sand is conserved, no cell
// is claimed twice, and a grain moves at most one cell in the gravity direction.
module Physics {
  import opened Grid

  /** The inputs of one sweep: the grid being read (after snow and paint),
      the gravity sign, and the coin each cell would toss if its grain is
      blocked straight ahead (true tries left first). */
  datatype Scan = Scan(before: seq<seq<TileType>>, gravity: int, coins: seq<seq<bool>>)
  {
    function Height(): int { |before| }
    function Width(): int { if before == [] then 0 else |before[0]| }

    predicate WellFormed()
    {
      Rect(before, Height(), Width())
      && Rect(coins, Height(), Width())
      && (gravity == 1 || gravity == -1)
    }
  }

  // ---------------------------------------------------------------------
  // Scan order

  /** The row visited `k`-th: bottom-up against gravity when gravity is positive, else top-down. */
  function VisitRow(g: int, h: int, k: int): int
  {
    if g > 0 then h - 1 - k else k
  }

  /** The position of row `r` in the row order. */
  function RowRank(g: int, h: int, r: int): int
  {
    if g > 0 then h - 1 - r else r
  }

  /** The column visited `j`-th in row `r`: right-to-left on even rows, left-to-right on odd rows. */
  function VisitCol(w: int, r: int, j: int): int
  {
    if r % 2 == 0 then w - 1 - j else j
  }

  /** The position of column `c` in the order row `r` is scanned. */
  function ColRank(w: int, r: int, c: int): int
  {
    if r % 2 == 0 then w - 1 - c else c
  }

  /** The scan visits every cell exactly once: the visiting order and the ranks are inverse bijections. */
  lemma ScanOrderIsBijection(g: int, h: int, w: int)
    requires g == 1 || g == -1
    ensures forall k :: 0 <= k < h ==> 0 <= VisitRow(g, h, k) < h && RowRank(g, h, VisitRow(g, h, k)) == k
    ensures forall r :: 0 <= r < h ==> 0 <= RowRank(g, h, r) < h && VisitRow(g, h, RowRank(g, h, r)) == r
    ensures forall r, j :: 0 <= j < w ==> 0 <= VisitCol(w, r, j) < w && ColRank(w, r, VisitCol(w, r, j)) == j
    ensures forall r, c :: 0 <= c < w ==> 0 <= ColRank(w, r, c) < w && VisitCol(w, r, ColRank(w, r, c)) == c
  {
  }

  // ---------------------------------------------------------------------
  // One cell, one row, the whole grid

  /** Where the grain of sand at (r, c) of the grid being read lands in the
      partly built new grid `next`. */
  function SandTarget(s: Scan, r: int, c: int, next: seq<seq<TileType>>): (p: (int, int))
    requires s.WellFormed() && 0 <= r < s.Height() && 0 <= c < s.Width()
    requires Rect(next, s.Height(), s.Width())
    ensures 0 <= p.0 < s.Height() && 0 <= p.1 < s.Width()
    // a grain either stays put or lands on a still-Blank cell one row on, at most one column aside
    ensures p == (r, c) || (p.0 == r + s.gravity && c - 1 <= p.1 <= c + 1 && next[p.0][p.1] == Blank)
    // it stays put exactly when the edge or all three cells ahead block it
    ensures p == (r, c) <==>
              !(0 <= r + s.gravity < s.Height())
              || (next[r + s.gravity][c] != Blank
                  && (c > 0 ==> next[r + s.gravity][c - 1] != Blank)
                  && (c + 1 < s.Width() ==> next[r + s.gravity][c + 1] != Blank))
    // straight ahead wins when free; otherwise the coin picks the side tried first
    ensures 0 <= r + s.gravity < s.Height() && next[r + s.gravity][c] == Blank ==> p == (r + s.gravity, c)
    ensures (0 <= r + s.gravity < s.Height() && next[r + s.gravity][c] != Blank && s.coins[r][c]
             && c > 0 && next[r + s.gravity][c - 1] == Blank) ==> p == (r + s.gravity, c - 1)
    ensures (0 <= r + s.gravity < s.Height() && next[r + s.gravity][c] != Blank && !s.coins[r][c]
             && c + 1 < s.Width() && next[r + s.gravity][c + 1] == Blank) ==> p == (r + s.gravity, c + 1)
  {
    var y := r + s.gravity;
    if y == s.Height() || y < 0 then (r, c)
    else if next[y][c] == Blank then (y, c)
    else if s.coins[r][c] then
      if c > 0 && next[y][c - 1] == Blank then (y, c - 1)
      else if c + 1 < s.Width() && next[y][c + 1] == Blank then (y, c + 1)
      else (r, c)
    else
      if c + 1 < s.Width() && next[y][c + 1] == Blank then (y, c + 1)
      else if c > 0 && next[y][c - 1] == Blank then (y, c - 1)
      else (r, c)
  }

  /** The effect of visiting cell (r, c) on the new grid `next`. */
  function StepCell(s: Scan, r: int, c: int, next: seq<seq<TileType>>): (n: seq<seq<TileType>>)
    requires s.WellFormed() && 0 <= r < s.Height() && 0 <= c < s.Width()
    requires Rect(next, s.Height(), s.Width())
    ensures Rect(n, s.Height(), s.Width())
  {
    match s.before[r][c]
    case Wall => Put(next, r, c, Wall)
    case Blank => next
    case Sand =>
      var p := SandTarget(s, r, c, next);
      Put(next, p.0, p.1, Sand)
  }

  /** The new grid after the first `j` cells of row `r` are visited, starting from `start`. */
  function ScanRow(s: Scan, r: int, j: int, start: seq<seq<TileType>>): (n: seq<seq<TileType>>)
    requires s.WellFormed() && 0 <= r < s.Height() && 0 <= j <= s.Width()
    requires Rect(start, s.Height(), s.Width())
    ensures Rect(n, s.Height(), s.Width())
    decreases j
  {
    if j == 0 then start
    else StepCell(s, r, VisitCol(s.Width(), r, j - 1), ScanRow(s, r, j - 1, start))
  }

  /** The new grid after the first `k` rows are visited, starting from the cleared scratch grid. */
  function SweepRows(s: Scan, k: int): (n: seq<seq<TileType>>)
    requires s.WellFormed() && 0 <= k <= s.Height()
    ensures Rect(n, s.Height(), s.Width())
    decreases k
  {
    if k == 0 then BlankGrid(s.Height(), s.Width())
    else ScanRow(s, VisitRow(s.gravity, s.Height(), k - 1), s.Width(), SweepRows(s, k - 1))
  }

  /** The grid one full sweep produces. */
  function Sweep(s: Scan): (n: seq<seq<TileType>>)
    requires s.WellFormed()
    ensures Rect(n, s.Height(), s.Width())
  {
    SweepRows(s, s.Height())
  }

  // ---------------------------------------------------------------------
  // The sweep invariant

  /** Cell (r, c) has been visited once `k` rows and then `j` cells of row `k` are done. */
  predicate Visited(s: Scan, k: int, j: int, r: int, c: int)
  {
    var rank := RowRank(s.gravity, s.Height(), r);
    rank < k || (rank == k && ColRank(s.Width(), r, c) < j)
  }

  /** The visited part of the grid being read, Blank elsewhere. */
  function Masked(s: Scan, k: int, j: int): (m: seq<seq<TileType>>)
    requires s.WellFormed()
    ensures Rect(m, s.Height(), s.Width())
  {
    seq(s.Height(), r requires 0 <= r < s.Height() =>
      seq(s.Width(), c requires 0 <= c < s.Width() =>
        if Visited(s, k, j, r, c) then s.before[r][c] else Blank))
  }

  /** A grain at (r, c) of the new grid came from (r, c) or from one of the
      three cells one row back against gravity. */
  predicate SandSource(s: Scan, r: int, c: int)
    requires s.WellFormed() && 0 <= r < s.Height() && 0 <= c < s.Width()
  {
    var y := r - s.gravity;
    s.before[r][c] == Sand
    || (0 <= y < s.Height()
        && (s.before[y][c] == Sand
            || (c > 0 && s.before[y][c - 1] == Sand)
            || (c + 1 < s.Width() && s.before[y][c + 1] == Sand)))
  }

  /** Cells not yet visited are still Blank in the new grid. */
  ghost predicate BlankAhead(s: Scan, k: int, j: int, n: seq<seq<TileType>>)
    requires s.WellFormed() && Rect(n, s.Height(), s.Width())
  {
    forall r, c :: 0 <= r < s.Height() && 0 <= c < s.Width() && !Visited(s, k, j, r, c) ==> n[r][c] == Blank
  }

  /** The walls of the new grid are the visited walls of the grid read. */
  ghost predicate WallsVisited(s: Scan, k: int, j: int, n: seq<seq<TileType>>)
    requires s.WellFormed() && Rect(n, s.Height(), s.Width())
  {
    forall r, c :: 0 <= r < s.Height() && 0 <= c < s.Width() ==>
      (n[r][c] == Wall <==> Visited(s, k, j, r, c) && s.before[r][c] == Wall)
  }

  /** Every grain of the new grid has a source in the grid read. */
  ghost predicate SandSourced(s: Scan, n: seq<seq<TileType>>)
    requires s.WellFormed() && Rect(n, s.Height(), s.Width())
  {
    forall r, c :: 0 <= r < s.Height() && 0 <= c < s.Width() && n[r][c] == Sand ==> SandSource(s, r, c)
  }

  /** What holds of the new grid `n` after `k` rows and `j` more cells are visited. */
  ghost predicate Inv(s: Scan, k: int, j: int, n: seq<seq<TileType>>)
    requires s.WellFormed()
  {
    Rect(n, s.Height(), s.Width())
    && BlankAhead(s, k, j, n)
    && WallsVisited(s, k, j, n)
    && SandSourced(s, n)
    && Count(n, Sand) == Count(Masked(s, k, j), Sand)
  }

  /** Visiting the `j`-th cell of row `k` (counting from 1) adds exactly that cell to the visited part. */
  lemma MaskedStep(s: Scan, k: int, j: int)
    requires s.WellFormed() && 0 <= k < s.Height() && 0 < j <= s.Width()
    ensures var r := VisitRow(s.gravity, s.Height(), k);
            var c := VisitCol(s.Width(), r, j - 1);
            Masked(s, k, j - 1)[r][c] == Blank
            && Masked(s, k, j) == Put(Masked(s, k, j - 1), r, c, s.before[r][c])
  {
    var r := VisitRow(s.gravity, s.Height(), k);
    var c := VisitCol(s.Width(), r, j - 1);
    var m, m' := Masked(s, k, j - 1), Masked(s, k, j);
    var p := Put(m, r, c, s.before[r][c]);
    forall r' | 0 <= r' < s.Height()
      ensures m'[r'] == p[r']
    {
      assert |m'[r']| == |p[r']|;
    }
  }

  /** A finished row is the same as the next row not yet begun. */
  lemma RowEnd(s: Scan, k: int, n: seq<seq<TileType>>)
    requires s.WellFormed() && 0 < k <= s.Height()
    requires Inv(s, k - 1, s.Width(), n)
    ensures Inv(s, k, 0, n)
  {
    var m, m' := Masked(s, k - 1, s.Width()), Masked(s, k, 0);
    forall r | 0 <= r < s.Height()
      ensures m[r] == m'[r]
    {
      assert |m[r]| == |m'[r]|;
    }
    assert m == m';
  }

  /** (r, c) is the cell visited `j`-th (counting from 1) in the `k`-th row of the scan. */
  predicate IsVisit(s: Scan, k: int, j: int, r: int, c: int)
  {
    r == VisitRow(s.gravity, s.Height(), k) && c == VisitCol(s.Width(), r, j - 1)
  }

  /** Visiting (r, c) adds exactly (r, c) to the visited cells. */
  lemma VisitedStep(s: Scan, k: int, j: int, r: int, c: int)
    requires s.WellFormed() && 0 <= k < s.Height() && 0 < j <= s.Width() && IsVisit(s, k, j, r, c)
    ensures !Visited(s, k, j - 1, r, c) && Visited(s, k, j, r, c)
    ensures forall r', c' :: 0 <= r' < s.Height() && 0 <= c' < s.Width() ==>
              (Visited(s, k, j, r', c') <==> Visited(s, k, j - 1, r', c') || (r' == r && c' == c))
  {
    assert RowRank(s.gravity, s.Height(), r) == k && ColRank(s.Width(), r, c) == j - 1;
  }

  /** The visit of (r, c) writes its own type into the still-Blank cell
      (tr, tc): either (r, c) itself, or, for a grain, a cell one row on. */
  ghost predicate Claim(s: Scan, k: int, j: int, n: seq<seq<TileType>>, r: int, c: int, tr: int, tc: int)
    requires s.WellFormed()
  {
    0 <= k < s.Height() && 0 < j <= s.Width() && IsVisit(s, k, j, r, c)
    && Inv(s, k, j - 1, n)
    && 0 <= tr < s.Height() && 0 <= tc < s.Width() && n[tr][tc] == Blank
    && s.before[r][c] != Blank
    && ((tr == r && tc == c)
        || (s.before[r][c] == Sand && tr == r + s.gravity && c - 1 <= tc <= c + 1))
  }

  lemma ClaimBlankAhead(s: Scan, k: int, j: int, n: seq<seq<TileType>>, r: int, c: int, tr: int, tc: int)
    requires s.WellFormed() && Claim(s, k, j, n, r, c, tr, tc)
    ensures BlankAhead(s, k, j, Put(n, tr, tc, s.before[r][c]))
  {
    VisitedStep(s, k, j, r, c);
    if (tr, tc) != (r, c) {
      assert RowRank(s.gravity, s.Height(), tr) == k - 1;
    }
  }

  lemma ClaimWalls(s: Scan, k: int, j: int, n: seq<seq<TileType>>, r: int, c: int, tr: int, tc: int)
    requires s.WellFormed() && Claim(s, k, j, n, r, c, tr, tc)
    ensures WallsVisited(s, k, j, Put(n, tr, tc, s.before[r][c]))
  {
    var n' := Put(n, tr, tc, s.before[r][c]);
    VisitedStep(s, k, j, r, c);
    forall r', c' | 0 <= r' < s.Height() && 0 <= c' < s.Width()
      ensures n'[r'][c'] == Wall <==> Visited(s, k, j, r', c') && s.before[r'][c'] == Wall
    {
      if r' == tr && c' == tc {
        if (tr, tc) != (r, c) {
          assert RowRank(s.gravity, s.Height(), tr) == k - 1;
          assert Visited(s, k, j - 1, tr, tc);
        }
      }
    }
  }

  lemma ClaimSources(s: Scan, k: int, j: int, n: seq<seq<TileType>>, r: int, c: int, tr: int, tc: int)
    requires s.WellFormed() && Claim(s, k, j, n, r, c, tr, tc)
    ensures SandSourced(s, Put(n, tr, tc, s.before[r][c]))
  {
    var n' := Put(n, tr, tc, s.before[r][c]);
    forall r', c' | 0 <= r' < s.Height() && 0 <= c' < s.Width() && n'[r'][c'] == Sand
      ensures SandSource(s, r', c')
    {
      if r' == tr && c' == tc && (tr, tc) != (r, c) {
        assert tr - s.gravity == r;
      }
    }
  }

  lemma ClaimCount(s: Scan, k: int, j: int, n: seq<seq<TileType>>, r: int, c: int, tr: int, tc: int)
    requires s.WellFormed() && Claim(s, k, j, n, r, c, tr, tc)
    ensures Count(Put(n, tr, tc, s.before[r][c]), Sand) == Count(Masked(s, k, j), Sand)
  {
    CountPut(n, tr, tc, s.before[r][c], Sand);
    MaskedStep(s, k, j);
    CountPut(Masked(s, k, j - 1), r, c, s.before[r][c], Sand);
  }

  /** A claim keeps the invariant. */
  lemma ClaimKeepsInv(s: Scan, k: int, j: int, n: seq<seq<TileType>>, r: int, c: int, tr: int, tc: int)
    requires s.WellFormed() && Claim(s, k, j, n, r, c, tr, tc)
    ensures Inv(s, k, j, Put(n, tr, tc, s.before[r][c]))
  {
    ClaimBlankAhead(s, k, j, n, r, c, tr, tc);
    ClaimWalls(s, k, j, n, r, c, tr, tc);
    ClaimSources(s, k, j, n, r, c, tr, tc);
    ClaimCount(s, k, j, n, r, c, tr, tc);
  }

  /** Visiting a Blank cell writes nothing and keeps the invariant. */
  lemma SkipKeepsInv(s: Scan, k: int, j: int, n: seq<seq<TileType>>, r: int, c: int)
    requires s.WellFormed() && 0 <= k < s.Height() && 0 < j <= s.Width() && IsVisit(s, k, j, r, c)
    requires Inv(s, k, j - 1, n) && s.before[r][c] == Blank
    ensures Inv(s, k, j, n)
  {
    VisitedStep(s, k, j, r, c);
    MaskedStep(s, k, j);
    CountPut(Masked(s, k, j - 1), r, c, Blank, Sand);
  }

  /** Visiting one cell keeps the invariant. */
  lemma StepKeepsInv(s: Scan, k: int, j: int, n: seq<seq<TileType>>)
    requires s.WellFormed() && 0 <= k < s.Height() && 0 < j <= s.Width()
    requires Inv(s, k, j - 1, n)
    ensures var r := VisitRow(s.gravity, s.Height(), k);
            Inv(s, k, j, StepCell(s, r, VisitCol(s.Width(), r, j - 1), n))
  {
    var r := VisitRow(s.gravity, s.Height(), k);
    var c := VisitCol(s.Width(), r, j - 1);
    VisitedStep(s, k, j, r, c);
    match s.before[r][c]
    case Blank =>
      SkipKeepsInv(s, k, j, n, r, c);
    case Wall =>
      ClaimKeepsInv(s, k, j, n, r, c, r, c);
    case Sand =>
      var p := SandTarget(s, r, c, n);
      ClaimKeepsInv(s, k, j, n, r, c, p.0, p.1);
  }

  lemma {:induction false} ScanRowInv(s: Scan, k: int, j: int)
    requires s.WellFormed() && 0 <= k < s.Height() && 0 <= j <= s.Width()
    requires Inv(s, k, 0, SweepRows(s, k))
    ensures Inv(s, k, j, ScanRow(s, VisitRow(s.gravity, s.Height(), k), j, SweepRows(s, k)))
  {
    if j > 0 {
      var r := VisitRow(s.gravity, s.Height(), k);
      ScanRowInv(s, k, j - 1);
      StepKeepsInv(s, k, j, ScanRow(s, r, j - 1, SweepRows(s, k)));
    }
  }

  /** Before the sweep nothing is visited and the scratch grid is Blank. */
  lemma InvStart(s: Scan)
    requires s.WellFormed()
    ensures Inv(s, 0, 0, BlankGrid(s.Height(), s.Width()))
  {
    var m := Masked(s, 0, 0);
    var b := BlankGrid(s.Height(), s.Width());
    forall r | 0 <= r < s.Height()
      ensures m[r] == b[r]
    {
      assert |m[r]| == |b[r]|;
    }
    assert m == b;
  }

  /** After the `k`-th row (counting from 1) is scanned, every cell of it is visited. */
  lemma RowScanned(s: Scan, k: int)
    requires s.WellFormed() && 0 < k <= s.Height()
    requires Inv(s, k - 1, 0, SweepRows(s, k - 1))
    ensures Inv(s, k - 1, s.Width(), SweepRows(s, k))
  {
    ScanRowInv(s, k - 1, s.Width());
  }

  /** Visiting a whole row keeps the invariant. */
  lemma RowKeepsInv(s: Scan, k: int)
    requires s.WellFormed() && 0 < k <= s.Height()
    requires Inv(s, k - 1, 0, SweepRows(s, k - 1))
    ensures Inv(s, k, 0, SweepRows(s, k))
  {
    RowScanned(s, k);
    RowEnd(s, k, SweepRows(s, k));
  }

  lemma {:induction false} SweepRowsInv(s: Scan, k: int)
    requires s.WellFormed() && 0 <= k <= s.Height()
    ensures Inv(s, k, 0, SweepRows(s, k))
  {
    if k == 0 {
      InvStart(s);
    } else {
      SweepRowsInv(s, k - 1);
      RowKeepsInv(s, k);
    }
  }

  /** Once every row is visited, the visited part is the whole grid being read. */
  lemma SweepInv(s: Scan)
    requires s.WellFormed()
    ensures Inv(s, s.Height(), 0, Sweep(s))
    ensures Masked(s, s.Height(), 0) == s.before
  {
    SweepRowsInv(s, s.Height());
    var m := Masked(s, s.Height(), 0);
    forall r | 0 <= r < s.Height()
      ensures m[r] == s.before[r]
    {
      assert |m[r]| == |s.before[r]|;
    }
  }

  // ---------------------------------------------------------------------
  // What one sweep guarantees

  /** No double occupancy: whenever the sweep writes a wall or a grain into
      the new grid, the cell it writes is still Blank there, so nothing that
      landed earlier in the sweep is overwritten. */
  lemma NoDoubleClaim(s: Scan, k: int, j: int)
    requires s.WellFormed() && 0 <= k < s.Height() && 0 <= j < s.Width()
    ensures var r := VisitRow(s.gravity, s.Height(), k);
            var c := VisitCol(s.Width(), r, j);
            var n := ScanRow(s, r, j, SweepRows(s, k));
            var p := if s.before[r][c] == Sand then SandTarget(s, r, c, n) else (r, c);
            s.before[r][c] != Blank ==> n[p.0][p.1] == Blank
  {
    var h, w, g := s.Height(), s.Width(), s.gravity;
    var r := VisitRow(g, h, k);
    var c := VisitCol(w, r, j);
    SweepRowsInv(s, k);
    ScanRowInv(s, k, j);
    assert RowRank(g, h, r) == k && ColRank(w, r, c) == j;
    assert !Visited(s, k, j, r, c);
  }

  /** Conservation: a sweep neither creates nor destroys sand. */
  lemma SweepConservesSand(s: Scan)
    requires s.WellFormed()
    ensures Count(Sweep(s), Sand) == Count(s.before, Sand)
  {
    SweepInv(s);
  }

  /** Wall invariance: the walls of the new grid are exactly those of the grid read. */
  lemma SweepKeepsWalls(s: Scan)
    requires s.WellFormed()
    ensures forall r, c :: 0 <= r < s.Height() && 0 <= c < s.Width() ==>
              (Sweep(s)[r][c] == Wall <==> s.before[r][c] == Wall)
  {
    SweepInv(s);
    var k := s.Height();
    forall r, c | 0 <= r < s.Height() && 0 <= c < s.Width()
      ensures Visited(s, k, 0, r, c)
    {
    }
  }

  /** Sand moves at most one cell per tick, and only in the gravity direction:
      every grain of the new grid was there already or one row back. */
  lemma SweepMovesOneStep(s: Scan)
    requires s.WellFormed()
    ensures forall r, c :: 0 <= r < s.Height() && 0 <= c < s.Width() && Sweep(s)[r][c] == Sand ==>
              SandSource(s, r, c)
  {
    SweepInv(s);
  }

  // ---------------------------------------------------------------------
  // Rows and cells with nothing to move

  /** Visiting a row of Blank cells writes nothing. */
  lemma {:induction false} ScanRowQuiet(s: Scan, r: int, j: int, start: seq<seq<TileType>>)
    requires s.WellFormed() && 0 <= r < s.Height() && 0 <= j <= s.Width()
    requires Rect(start, s.Height(), s.Width())
    requires forall c :: 0 <= c < s.Width() ==> s.before[r][c] == Blank
    ensures ScanRow(s, r, j, start) == start
  {
    if j > 0 {
      ScanRowQuiet(s, r, j - 1, start);
    }
  }

  /** In a row whose only non-Blank cell is (r, c), only that cell's visit writes. */
  lemma {:induction false} ScanRowSingle(s: Scan, r: int, c: int, j: int, start: seq<seq<TileType>>)
    requires s.WellFormed() && 0 <= r < s.Height() && 0 <= c < s.Width() && 0 <= j <= s.Width()
    requires Rect(start, s.Height(), s.Width())
    requires forall c' :: 0 <= c' < s.Width() && c' != c ==> s.before[r][c'] == Blank
    ensures ScanRow(s, r, j, start)
            == if ColRank(s.Width(), r, c) < j then StepCell(s, r, c, start) else start
  {
    if j > 0 {
      ScanRowSingle(s, r, c, j - 1, start);
    }
  }

  /** Rows `k0` to `k` (in visiting order) that read only Blank cells change nothing. */
  lemma {:induction false} SweepRowsQuiet(s: Scan, k0: int, k: int)
    requires s.WellFormed() && 0 <= k0 <= k <= s.Height()
    requires forall i, c :: k0 <= i < k && 0 <= c < s.Width() ==>
               s.before[VisitRow(s.gravity, s.Height(), i)][c] == Blank
    ensures SweepRows(s, k) == SweepRows(s, k0)
  {
    if k > k0 {
      SweepRowsQuiet(s, k0, k - 1);
      ScanRowQuiet(s, VisitRow(s.gravity, s.Height(), k - 1), s.Width(), SweepRows(s, k - 1));
    }
  }

  /** The one visit that writes when a lone grain sits in an otherwise Blank grid. */
  lemma LoneGrainStep(s: Scan, r: int, c: int)
    requires s.WellFormed() && 0 <= r < s.Height() && 0 <= c < s.Width()
    requires s.before[r][c] == Sand
    ensures StepCell(s, r, c, BlankGrid(s.Height(), s.Width()))
            == Put(BlankGrid(s.Height(), s.Width()),
                   if 0 <= r + s.gravity < s.Height() then r + s.gravity else r, c, Sand)
  {
    var p := SandTarget(s, r, c, BlankGrid(s.Height(), s.Width()));
    assert p == (if 0 <= r + s.gravity < s.Height() then r + s.gravity else r, c);
  }

  /** Gravity and edge containment: a lone grain falls one row in the gravity
      direction, or stays where it is when that row is off the grid. */
  lemma LoneGrain(s: Scan, r: int, c: int)
    requires s.WellFormed() && 0 <= r < s.Height() && 0 <= c < s.Width()
    requires s.before == Put(BlankGrid(s.Height(), s.Width()), r, c, Sand)
    ensures Sweep(s) == Put(BlankGrid(s.Height(), s.Width()),
                            if 0 <= r + s.gravity < s.Height() then r + s.gravity else r, c, Sand)
  {
    var h, w, g := s.Height(), s.Width(), s.gravity;
    var k0 := RowRank(g, h, r);
    assert VisitRow(g, h, k0) == r;
    assert forall i :: 0 <= i < h && i != k0 ==> VisitRow(g, h, i) != r;
    SweepRowsQuiet(s, 0, k0);
    ScanRowSingle(s, r, c, w, SweepRows(s, k0));
    LoneGrainStep(s, r, c);
    assert SweepRows(s, k0 + 1) == StepCell(s, r, c, BlankGrid(h, w));
    SweepRowsQuiet(s, k0 + 1, h);
  }

  /** The grain on the edge row cannot fall further and is copied in place. */
  lemma EdgeGrainStep(s: Scan, r: int, c: int)
    requires s.WellFormed() && 0 <= r < s.Height() && 0 <= c < s.Width()
    requires r == VisitRow(s.gravity, s.Height(), 0) && s.before[r][c] == Sand
    ensures StepCell(s, r, c, BlankGrid(s.Height(), s.Width())) == Put(BlankGrid(s.Height(), s.Width()), r, c, Sand)
  {
    assert SandTarget(s, r, c, BlankGrid(s.Height(), s.Width())) == (r, c);
  }

  /** A grain blocked straight ahead by the grain below slides to the side its coin picks. */
  lemma SlideStep(s: Scan, edge: int, above: int, c: int, n: seq<seq<TileType>>)
    requires s.WellFormed() && 2 <= s.Height() && 0 < c < s.Width() - 1
    requires edge == VisitRow(s.gravity, s.Height(), 0) && above == VisitRow(s.gravity, s.Height(), 1)
    requires s.before[above][c] == Sand
    requires n == Put(BlankGrid(s.Height(), s.Width()), edge, c, Sand)
    ensures StepCell(s, above, c, n) == Put(n, edge, if s.coins[above][c] then c - 1 else c + 1, Sand)
  {
    assert above + s.gravity == edge;
    assert SandTarget(s, above, c, n) == (edge, if s.coins[above][c] then c - 1 else c + 1);
  }

  /** Diagonal fallback: a grain resting on another grain that lies on the
      edge row slides to the left on a true coin and to the right on a false
      one, when both diagonal cells are free. */
  lemma StackedGrains(s: Scan, c: int)
    requires s.WellFormed() && 2 <= s.Height() && 0 < c < s.Width() - 1
    requires var edge := VisitRow(s.gravity, s.Height(), 0);
             var above := VisitRow(s.gravity, s.Height(), 1);
             s.before == Put(Put(BlankGrid(s.Height(), s.Width()), edge, c, Sand), above, c, Sand)
    ensures var edge := VisitRow(s.gravity, s.Height(), 0);
            var above := VisitRow(s.gravity, s.Height(), 1);
            Sweep(s) == Put(Put(BlankGrid(s.Height(), s.Width()), edge, c, Sand),
                            edge, if s.coins[above][c] then c - 1 else c + 1, Sand)
  {
    var h, w, g := s.Height(), s.Width(), s.gravity;
    var edge := VisitRow(g, h, 0);
    var above := VisitRow(g, h, 1);
    var b := BlankGrid(h, w);
    var s1 := Put(b, edge, c, Sand);
    ScanRowSingle(s, edge, c, w, b);
    EdgeGrainStep(s, edge, c);
    assert SweepRows(s, 1) == s1;
    ScanRowSingle(s, above, c, w, s1);
    SlideStep(s, edge, above, c, s1);
    assert SweepRows(s, 2) == StepCell(s, above, c, s1);
    assert forall i :: 2 <= i < h ==> VisitRow(g, h, i) != edge && VisitRow(g, h, i) != above;
    SweepRowsQuiet(s, 2, h);
  }
}
