/** Cells, the board as a value, and the pure board operations: building an
    empty board, opening every mine after a loss, toggling a flag, and the two
    counting queries. */
module Board {

  /** One grid position (`CellType`). */
  datatype Cell = Cell(isOpen: bool, isMine: bool, isMarked: bool, minesAround: int)

  /** The outcome a reveal reports (`GameStatus`). */
  datatype GameStatus = GameWorks | GameOver | GameWon

  /** The board as rows of cells, indexed `g[y][x]`: y is the row, x the column. */
  type Grid = seq<seq<Cell>>

  const EmptyCell := Cell(false, false, false, 0)

  /** A board position: column x, row y. */
  datatype Coord = Coord(x: int, y: int)

  predicate InGrid(g: Grid, y: int, x: int) {
    0 <= y < |g| && 0 <= x < |g[y]|
  }

  predicate IsRectangle(g: Grid, width: int) {
    forall y :: 0 <= y < |g| ==> |g[y]| == width
  }

  predicate SameShape(g: Grid, h: Grid) {
    |g| == |h| && forall y :: 0 <= y < |g| ==> |g[y]| == |h[y]|
  }

  /** (ny, nx) is in the Moore neighbourhood of (y, x): row and column
      offsets in {-1, 0, 1}, not both zero. */
  predicate Adjacent(y: int, x: int, ny: int, nx: int) {
    -1 <= ny - y <= 1 && -1 <= nx - x <= 1 && (ny != y || nx != x)
  }

  predicate IsMarked(c: Cell) { c.isMarked }
  predicate IsClosed(c: Cell) { !c.isOpen }
  predicate IsMine(c: Cell) { c.isMine }
  predicate IsClosedMine(c: Cell) { !c.isOpen && c.isMine }
  predicate IsClosedSafe(c: Cell) { !c.isOpen && !c.isMine }

  function Indicator(b: bool): nat { if b then 1 else 0 }

  /** The value held by a two-dimensional array, row by row. */
  function ToGrid(a: array2<Cell>): (g: Grid)
    reads a
    ensures |g| == a.Length0 && IsRectangle(g, a.Length1)
    ensures forall y, x :: 0 <= y < a.Length0 && 0 <= x < a.Length1 ==> g[y][x] == a[y, x]
  {
    seq(a.Length0, (y: int) requires 0 <= y < a.Length0 reads a =>
      seq(a.Length1, (x: int) requires 0 <= x < a.Length1 reads a => a[y, x]))
  }

  lemma GridExtensionality(g: Grid, h: Grid)
    requires SameShape(g, h)
    requires forall y, x :: InGrid(g, y, x) ==> g[y][x] == h[y][x]
    ensures g == h
  {
    forall y | 0 <= y < |g| ensures g[y] == h[y] {
      assert forall x :: 0 <= x < |g[y]| ==> InGrid(g, y, x);
    }
  }

  // ---------------------------------------------------------------------
  // Counting: `row.filter(f).length`, summed over the rows
  // ---------------------------------------------------------------------

  function CountInRow(row: seq<Cell>, f: Cell -> bool): (n: nat)
    ensures n <= |row|
  {
    if row == [] then 0 else Indicator(f(row[0])) + CountInRow(row[1..], f)
  }

  /** The number of cells of a board. */
  function CellCount(g: Grid): nat {
    if g == [] then 0 else |g[0]| + CellCount(g[1..])
  }

  lemma {:induction false} RectangleCellCount(g: Grid, width: nat)
    requires IsRectangle(g, width)
    ensures CellCount(g) == width * |g|
  {
    if g != [] {
      RectangleCellCount(g[1..], width);
    }
  }

  function CountInGrid(g: Grid, f: Cell -> bool): (n: nat)
    ensures n <= CellCount(g)
  {
    if g == [] then 0 else CountInRow(g[0], f) + CountInGrid(g[1..], f)
  }

  lemma {:induction false} RowCountMonotone(r: seq<Cell>, s: seq<Cell>, f: Cell -> bool, f': Cell -> bool)
    requires |r| == |s|
    requires forall i :: 0 <= i < |s| && f'(s[i]) ==> f(r[i])
    ensures CountInRow(s, f') <= CountInRow(r, f)
  {
    if r != [] {
      RowCountMonotone(r[1..], s[1..], f, f');
    }
  }

  /** Counting is monotone: when every cell of h that satisfies f' sits where
      g has a cell satisfying f, h has no more f'-cells than g has f-cells. */
  lemma {:induction false} GridCountMonotone(g: Grid, h: Grid, f: Cell -> bool, f': Cell -> bool)
    requires SameShape(g, h)
    requires forall y, x :: InGrid(h, y, x) && f'(h[y][x]) ==> f(g[y][x])
    ensures CountInGrid(h, f') <= CountInGrid(g, f)
  {
    if g != [] {
      assert forall x :: 0 <= x < |h[0]| ==> InGrid(h, 0, x);
      RowCountMonotone(g[0], h[0], f, f');
      forall y, x | InGrid(h[1..], y, x) && f'(h[1..][y][x]) ensures f(g[1..][y][x]) {
        assert InGrid(h, y + 1, x);
      }
      GridCountMonotone(g[1..], h[1..], f, f');
    }
  }

  /** Two boards whose cells agree, cell by cell, on f and f' have equally
      many f- and f'-cells. */
  lemma GridCountSame(g: Grid, h: Grid, f: Cell -> bool, f': Cell -> bool)
    requires SameShape(g, h)
    requires forall y, x :: InGrid(g, y, x) ==> (f(g[y][x]) <==> f'(h[y][x]))
    ensures CountInGrid(h, f') == CountInGrid(g, f)
  {
    GridCountMonotone(g, h, f, f');
    GridCountMonotone(h, g, f', f);
  }

  lemma {:induction false} RowCountOneChange(r: seq<Cell>, s: seq<Cell>, i: int, f: Cell -> bool)
    requires |r| == |s| && 0 <= i < |r|
    requires forall j :: 0 <= j < |r| && j != i ==> s[j] == r[j]
    ensures CountInRow(s, f) + Indicator(f(r[i])) == CountInRow(r, f) + Indicator(f(s[i]))
  {
    if i == 0 {
      assert r[1..] == s[1..];
    } else {
      RowCountOneChange(r[1..], s[1..], i - 1, f);
    }
  }

  /** Changing one cell changes a count by at most one, in the direction of
      the change. */
  lemma {:induction false} GridCountOneChange(g: Grid, h: Grid, y: int, x: int, f: Cell -> bool)
    requires SameShape(g, h) && InGrid(g, y, x)
    requires forall j, i :: InGrid(g, j, i) && (j != y || i != x) ==> h[j][i] == g[j][i]
    ensures CountInGrid(h, f) + Indicator(f(g[y][x])) == CountInGrid(g, f) + Indicator(f(h[y][x]))
  {
    if y == 0 {
      forall i | 0 <= i < |g[0]| && i != x ensures h[0][i] == g[0][i] {
        assert InGrid(g, 0, i);
      }
      RowCountOneChange(g[0], h[0], x, f);
      forall j, i | InGrid(g[1..], j, i) ensures g[1..][j][i] == h[1..][j][i] {
        assert InGrid(g, j + 1, i);
      }
      GridExtensionality(g[1..], h[1..]);
    } else {
      assert forall i :: 0 <= i < |g[0]| ==> InGrid(g, 0, i);
      assert g[0] == h[0];
      forall j, i | InGrid(g[1..], j, i) && (j != y - 1 || i != x) ensures h[1..][j][i] == g[1..][j][i] {
        assert InGrid(g, j + 1, i);
      }
      GridCountOneChange(g[1..], h[1..], y - 1, x, f);
    }
  }

  lemma {:induction false} RowCountZeroIff(r: seq<Cell>, f: Cell -> bool)
    ensures CountInRow(r, f) == 0 <==> forall i :: 0 <= i < |r| ==> !f(r[i])
  {
    if r != [] {
      RowCountZeroIff(r[1..], f);
      assert forall i :: 1 <= i < |r| ==> r[i] == r[1..][i - 1];
    }
  }

  /** A board has no f-cell exactly when its f-count is zero. */
  lemma {:induction false} GridCountZeroIff(g: Grid, f: Cell -> bool)
    ensures CountInGrid(g, f) == 0 <==> forall y, x :: InGrid(g, y, x) ==> !f(g[y][x])
  {
    if g != [] {
      RowCountZeroIff(g[0], f);
      GridCountZeroIff(g[1..], f);
      assert forall y, x :: InGrid(g, y, x) && y > 0 ==> InGrid(g[1..], y - 1, x) && g[y][x] == g[1..][y - 1][x];
      assert forall y, x :: InGrid(g[1..], y, x) ==> InGrid(g, y + 1, x);
      assert forall x :: 0 <= x < |g[0]| ==> InGrid(g, 0, x);
    }
  }

  lemma {:induction false} RowCountAllButOne(r: seq<Cell>, f: Cell -> bool, skip: int)
    requires forall i :: 0 <= i < |r| && i != skip ==> f(r[i])
    ensures CountInRow(r, f) + Indicator(0 <= skip < |r|) >= |r|
  {
    if r != [] {
      RowCountAllButOne(r[1..], f, skip - 1);
    }
  }

  /** A board where every cell but possibly the one at (y0, x0) satisfies f
      has all its cells but at most one among the f-cells; all of them when
      (y0, x0) is off the board. */
  lemma {:induction false} GridCountAllButOne(g: Grid, f: Cell -> bool, y0: int, x0: int)
    requires forall y, x :: InGrid(g, y, x) && (y != y0 || x != x0) ==> f(g[y][x])
    ensures CountInGrid(g, f) + Indicator(InGrid(g, y0, x0)) >= CellCount(g)
  {
    if g != [] {
      var skip := if y0 == 0 then x0 else -1;
      var rest := g[1..];
      forall x | 0 <= x < |g[0]| && x != skip ensures f(g[0][x]) {
        assert InGrid(g, 0, x);
      }
      RowCountAllButOne(g[0], f, skip);
      forall y, x | InGrid(rest, y, x) && (y != y0 - 1 || x != x0) ensures f(rest[y][x]) {
        assert InGrid(g, y + 1, x) && rest[y][x] == g[y + 1][x];
      }
      GridCountAllButOne(rest, f, y0 - 1, x0);
      assert InGrid(g, y0, x0) <==> (y0 == 0 && 0 <= x0 < |g[0]|) || InGrid(rest, y0 - 1, x0);
    }
  }

  /** Counting splits over two predicates that partition f. */
  lemma {:induction false} GridCountSplit(g: Grid, f: Cell -> bool, a: Cell -> bool, b: Cell -> bool)
    requires forall c :: f(c) <==> a(c) || b(c)
    requires forall c :: !(a(c) && b(c))
    ensures CountInGrid(g, f) == CountInGrid(g, a) + CountInGrid(g, b)
  {
    if g != [] {
      RowCountSplit(g[0], f, a, b);
      GridCountSplit(g[1..], f, a, b);
    }
  }

  lemma {:induction false} RowCountSplit(r: seq<Cell>, f: Cell -> bool, a: Cell -> bool, b: Cell -> bool)
    requires forall c :: f(c) <==> a(c) || b(c)
    requires forall c :: !(a(c) && b(c))
    ensures CountInRow(r, f) == CountInRow(r, a) + CountInRow(r, b)
  {
    if r != [] {
      RowCountSplit(r[1..], f, a, b);
    }
  }

  // ---------------------------------------------------------------------
  // The two counting queries
  // ---------------------------------------------------------------------

  /** `countFlaggedCells`: the number of marked cells. */
  function CountFlaggedCells(g: Grid): (n: nat)
    ensures n <= CellCount(g)
    ensures n == 0 <==> forall y, x :: InGrid(g, y, x) ==> !g[y][x].isMarked
  {
    GridCountZeroIff(g, IsMarked);
    CountInGrid(g, IsMarked)
  }

  /** `getNumberOfClosedCells`: the number of cells not yet open. */
  function GetNumberOfClosedCells(g: Grid): (n: nat)
    ensures n <= CellCount(g)
    ensures n == 0 <==> forall y, x :: InGrid(g, y, x) ==> g[y][x].isOpen
  {
    GridCountZeroIff(g, IsClosed);
    CountInGrid(g, IsClosed)
  }

  /** The number of mines on a board. */
  function MineCount(g: Grid): (n: nat)
    ensures n <= CellCount(g)
    ensures n == 0 <==> forall y, x :: InGrid(g, y, x) ==> !g[y][x].isMine
  {
    GridCountZeroIff(g, IsMine);
    CountInGrid(g, IsMine)
  }

  // ---------------------------------------------------------------------
  // Board creation
  // ---------------------------------------------------------------------

  /** `generateCells`: boardHeight rows of boardWidth cells, each closed,
      unmarked, not a mine, with no mines around. */
  function GenerateCells(boardWidth: nat, boardHeight: nat): (g: Grid)
    ensures |g| == boardHeight && IsRectangle(g, boardWidth)
    ensures forall y, x :: InGrid(g, y, x) ==> g[y][x] == EmptyCell
  {
    seq(boardHeight, _ => seq(boardWidth, _ => EmptyCell))
  }

  /** A new board has every one of its width * height cells closed, and no
      flag and no mine. */
  lemma GenerateCellsCounts(boardWidth: nat, boardHeight: nat)
    ensures GetNumberOfClosedCells(GenerateCells(boardWidth, boardHeight)) == boardWidth * boardHeight
    ensures CountFlaggedCells(GenerateCells(boardWidth, boardHeight)) == 0
    ensures MineCount(GenerateCells(boardWidth, boardHeight)) == 0
  {
    var g := GenerateCells(boardWidth, boardHeight);
    GridCountAllButOne(g, IsClosed, -1, -1);
    RectangleCellCount(g, boardWidth);
  }

  // ---------------------------------------------------------------------
  // Loss reveal
  // ---------------------------------------------------------------------

  function OpenIfMine(c: Cell): Cell {
    if c.isMine then c.(isOpen := true) else c
  }

  /** `openAllMineCells`: the board shown after a loss. */
  function OpenAllMineCells(g: Grid): (r: Grid)
    ensures SameShape(g, r)
    ensures forall y, x :: InGrid(g, y, x) ==>
      && r[y][x] == g[y][x].(isOpen := r[y][x].isOpen)
      && (r[y][x].isMine ==> r[y][x].isOpen)
      && (!g[y][x].isMine ==> r[y][x] == g[y][x])
  {
    seq(|g|, (y: int) requires 0 <= y < |g| =>
      seq(|g[y]|, (x: int) requires 0 <= x < |g[y]| => OpenIfMine(g[y][x])))
  }

  /** After a loss exactly the closed cells that are not mines remain
      closed, and opening all mines a second time changes nothing. */
  lemma OpenAllMineCellsClosedCount(g: Grid)
    ensures GetNumberOfClosedCells(OpenAllMineCells(g)) == CountInGrid(g, IsClosedSafe)
    ensures OpenAllMineCells(OpenAllMineCells(g)) == OpenAllMineCells(g)
  {
    var r := OpenAllMineCells(g);
    GridCountSame(g, r, IsClosedSafe, IsClosed);
    GridExtensionality(OpenAllMineCells(r), r);
  }

  // ---------------------------------------------------------------------
  // Flag toggling
  // ---------------------------------------------------------------------

  function ToggleMarker(c: Cell): Cell {
    if c.isOpen then c else c.(isMarked := !c.isMarked)
  }

  /** `placeMarker`: flips the flag of the cell at column x, row y unless it
      is open; every other cell is kept. */
  function PlaceMarker(g: Grid, x: int, y: int): (r: Grid)
    ensures SameShape(g, r)
    ensures forall j, i :: InGrid(g, j, i) && (j != y || i != x) ==> r[j][i] == g[j][i]
    ensures InGrid(g, y, x) ==>
      && r[y][x].isOpen == g[y][x].isOpen
      && r[y][x].isMarked == (g[y][x].isMarked != !g[y][x].isOpen)
      && r[y][x] == g[y][x].(isMarked := r[y][x].isMarked)
  {
    seq(|g|, (j: int) requires 0 <= j < |g| =>
      seq(|g[j]|, (i: int) requires 0 <= i < |g[j]| =>
        if x == i && y == j then ToggleMarker(g[j][i]) else g[j][i]))
  }

  /** Toggling is the identity exactly on an open cell or a coordinate off
      the board. */
  lemma PlaceMarkerNoOp(g: Grid, x: int, y: int)
    ensures PlaceMarker(g, x, y) == g <==> !InGrid(g, y, x) || g[y][x].isOpen
  {
    var r := PlaceMarker(g, x, y);
    if !InGrid(g, y, x) || g[y][x].isOpen {
      GridExtensionality(r, g);
    } else {
      assert r[y][x] != g[y][x];
    }
  }

  /** Toggling twice restores the board. */
  lemma PlaceMarkerTwice(g: Grid, x: int, y: int)
    ensures PlaceMarker(PlaceMarker(g, x, y), x, y) == g
  {
    GridExtensionality(PlaceMarker(PlaceMarker(g, x, y), x, y), g);
  }

  /** Toggling a closed cell moves the flag count by exactly one, and never
      changes which cells are open or mined. */
  lemma PlaceMarkerCounts(g: Grid, x: int, y: int)
    ensures GetNumberOfClosedCells(PlaceMarker(g, x, y)) == GetNumberOfClosedCells(g)
    ensures MineCount(PlaceMarker(g, x, y)) == MineCount(g)
    ensures InGrid(g, y, x) && !g[y][x].isOpen ==>
      CountFlaggedCells(PlaceMarker(g, x, y)) ==
        if g[y][x].isMarked then CountFlaggedCells(g) - 1 else CountFlaggedCells(g) + 1
  {
    var r := PlaceMarker(g, x, y);
    GridCountSame(g, r, IsClosed, IsClosed);
    GridCountSame(g, r, IsMine, IsMine);
    if InGrid(g, y, x) {
      GridCountOneChange(g, r, y, x, IsMarked);
    }
  }
}
