// Tiles, rectangular grids of tiles, and the bulk clear of game/grid.go.
//
// A grid is seen two ways: as the mutable `array2<TileType>` the engine owns
// (the source's `[][]Tile`, always rectangular), and as a value
// `seq<seq<TileType>>` (row-major: `s[row][col]`) that specifications and
// lemmas talk about. `Holds` ties the two together.
module Grid {

  datatype Option<T> = None | Some(value: T)

  /** The material in one cell. */
  datatype TileType = Blank | Wall | Sand

  /** The integer constant the source gives each tile type; Blank is the zero value. */
  function Code(t: TileType): (n: int)
    ensures 0 <= n <= 2
    ensures n == 0 <==> t == Blank
  {
    match t
    case Blank => 0
    case Wall => 1
    case Sand => 2
  }

  /** The tile type whose constant is `n`, if there is one. */
  function FromCode(n: int): (r: Option<TileType>)
    ensures r.Some? <==> 0 <= n <= 2
    ensures r.Some? ==> Code(r.value) == n
  {
    if n == 0 then Some(Blank)
    else if n == 1 then Some(Wall)
    else if n == 2 then Some(Sand)
    else None
  }

  /** Every tile type survives the trip through its constant, so the three constants are distinct. */
  lemma CodeRoundTrip(t: TileType)
    ensures FromCode(Code(t)) == Some(t)
    ensures forall u: TileType :: Code(u) == Code(t) ==> u == t
  {
  }

  /** The name of a tile type, as shown in the debug overlay. */
  function Name(t: TileType): (r: string)
    ensures t == Blank <==> r == "blank"
    ensures t == Wall <==> r == "wall"
    ensures t == Sand <==> r == "sand"
  {
    match t
    case Blank => "blank"
    case Wall => "wall"
    case Sand => "sand"
  }

  /** `TileType.String` applied to an arbitrary integer: None is the fatal
      "Invalid tile type" exit taken for anything but the three constants. */
  function NameOfCode(n: int): (r: Option<string>)
    ensures r.Some? <==> 0 <= n <= 2
    ensures n == 0 ==> r == Some("blank")
    ensures n == 1 ==> r == Some("wall")
    ensures n == 2 ==> r == Some("sand")
  {
    match FromCode(n)
    case None => None
    case Some(t) => Some(Name(t))
  }

  /** Distinct tile types have distinct names. */
  lemma NamesDistinct(a: TileType, b: TileType)
    ensures Name(a) == Name(b) ==> a == b
  {
  }

  // ---------------------------------------------------------------------
  // Grids as values

  /** `s` has `h` rows of `w` cells each. */
  predicate Rect<T>(s: seq<seq<T>>, h: int, w: int)
  {
    |s| == h && forall r :: 0 <= r < h ==> |s[r]| == w
  }

  /** The all-Blank grid of the given size (a freshly allocated grid). */
  function BlankGrid(h: nat, w: nat): (s: seq<seq<TileType>>)
    ensures Rect(s, h, w)
    ensures forall r, c :: 0 <= r < h && 0 <= c < w ==> s[r][c] == Blank
  {
    seq(h, _ => seq(w, _ => Blank))
  }

  /** `s` with the cell in row `r`, column `c` replaced by `v`. */
  function Put(s: seq<seq<TileType>>, r: int, c: int, v: TileType): (s': seq<seq<TileType>>)
    requires 0 <= r < |s| && 0 <= c < |s[r]|
    ensures |s'| == |s| && forall i :: 0 <= i < |s| ==> |s'[i]| == |s[i]|
  {
    s[r := s[r][c := v]]
  }

  /** The number of cells of type `t` in one row. */
  function RowCount(row: seq<TileType>, t: TileType): (n: nat)
    ensures n <= |row|
  {
    if row == [] then 0
    else RowCount(row[..|row| - 1], t) + (if row[|row| - 1] == t then 1 else 0)
  }

  /** The number of cells of type `t` in a grid. */
  function Count(s: seq<seq<TileType>>, t: TileType): nat
  {
    if s == [] then 0
    else Count(s[..|s| - 1], t) + RowCount(s[|s| - 1], t)
  }

  /** Overwriting one cell of a row changes its count of `t` by what left and what came. */
  lemma {:induction false} RowCountPut(row: seq<TileType>, c: int, v: TileType, t: TileType)
    requires 0 <= c < |row|
    ensures RowCount(row[c := v], t)
            == RowCount(row, t) - (if row[c] == t then 1 else 0) + (if v == t then 1 else 0)
  {
    var n := |row|;
    if c == n - 1 {
      assert row[c := v][..n - 1] == row[..n - 1];
    } else {
      assert row[c := v][..n - 1] == row[..n - 1][c := v];
      RowCountPut(row[..n - 1], c, v, t);
    }
  }

  /** Overwriting one cell of a grid changes its count of `t` by what left and what came. */
  lemma {:induction false} CountPut(s: seq<seq<TileType>>, r: int, c: int, v: TileType, t: TileType)
    requires 0 <= r < |s| && 0 <= c < |s[r]|
    ensures Count(Put(s, r, c, v), t)
            == Count(s, t) - (if s[r][c] == t then 1 else 0) + (if v == t then 1 else 0)
  {
    var n := |s|;
    var s' := Put(s, r, c, v);
    if r == n - 1 {
      assert s'[..n - 1] == s[..n - 1];
      RowCountPut(s[r], c, v, t);
    } else {
      assert s'[..n - 1] == Put(s[..n - 1], r, c, v);
      CountPut(s[..n - 1], r, c, v, t);
    }
  }

  /** A row whose cells of type `t` are exactly the columns a to b - 1 holds b - a of them. */
  lemma {:induction false} RowCountSegment(row: seq<TileType>, a: int, b: int, t: TileType)
    requires 0 <= a <= b <= |row|
    requires forall c :: 0 <= c < |row| ==> (row[c] == t <==> a <= c < b)
    ensures RowCount(row, t) == b - a
  {
    if row != [] {
      var m := |row| - 1;
      RowCountSegment(row[..m], if a < m then a else m, if b < m then b else m, t);
    }
  }

  /** When no row but row `m` holds a cell of type `t`, the grid's count is that row's. */
  lemma {:induction false} CountOnlyRow(s: seq<seq<TileType>>, m: int, t: TileType)
    requires 0 <= m
    requires forall r :: 0 <= r < |s| && r != m ==> RowCount(s[r], t) == 0
    ensures Count(s, t) == if m < |s| then RowCount(s[m], t) else 0
  {
    if s != [] {
      CountOnlyRow(s[..|s| - 1], m, t);
    }
  }

  // ---------------------------------------------------------------------
  // Grids as arrays

  /** The value held by a grid array. */
  ghost function Cells(a: array2<TileType>): (s: seq<seq<TileType>>)
    reads a
    ensures Rect(s, a.Length0, a.Length1)
    ensures forall r, c :: 0 <= r < a.Length0 && 0 <= c < a.Length1 ==> s[r][c] == a[r, c]
  {
    seq(a.Length0, r reads a => seq(a.Length1, c reads a =>
      if 0 <= r < a.Length0 && 0 <= c < a.Length1 then a[r, c] else Blank))
  }

  /** The array `a` holds the grid value `s`, cell by cell. */
  ghost predicate Holds(a: array2<TileType>, s: seq<seq<TileType>>)
    reads a
  {
    Rect(s, a.Length0, a.Length1)
    && forall r, c :: 0 <= r < a.Length0 && 0 <= c < a.Length1 ==> a[r, c] == s[r][c]
  }

  /** An array holds its own value. */
  lemma CellsHold(a: array2<TileType>)
    ensures Holds(a, Cells(a))
  {
  }

  /** An array holds exactly one grid value. */
  lemma HoldsCells(a: array2<TileType>, s: seq<seq<TileType>>)
    requires Holds(a, s)
    ensures Cells(a) == s
  {
    var t := Cells(a);
    forall r | 0 <= r < a.Length0
      ensures t[r] == s[r]
    {
      assert |t[r]| == |s[r]|;
    }
  }

  /** Grid.Reset: every existing cell, row by row, becomes the zero tile.
      The array's dimensions cannot change, and the result does not depend on
      the prior contents, so resetting twice is the same as resetting once. */
  method Reset(g: array2<TileType>)
    modifies g
    ensures Cells(g) == BlankGrid(g.Length0, g.Length1)
  {
    var i := 0;
    while i < g.Length0
      invariant 0 <= i <= g.Length0
      invariant forall r, c :: 0 <= r < i && 0 <= c < g.Length1 ==> g[r, c] == Blank
    {
      var j := 0;
      while j < g.Length1
        invariant 0 <= j <= g.Length1
        invariant forall r, c :: 0 <= r < i && 0 <= c < g.Length1 ==> g[r, c] == Blank
        invariant forall c :: 0 <= c < j ==> g[i, c] == Blank
      {
        g[i, j] := Blank;
        j := j + 1;
      }
      i := i + 1;
    }
    HoldsCells(g, BlankGrid(g.Length0, g.Length1));
  }
}
