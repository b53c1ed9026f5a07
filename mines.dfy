/** Mine placement and adjacency counting: the two operations that write
    into the board in place before the first cell is revealed. */
module Mines {
  import opened Board
  import opened Difficulty

  /** The row and column offsets of a Moore neighbourhood (`neighboursLocations`). */
  const NeighboursLocations: seq<int> := [-1, 0, 1]

  /** A mine stands at (y, x); a position off the board holds none. */
  predicate MineAt(g: Grid, y: int, x: int) {
    InGrid(g, y, x) && g[y][x].isMine
  }

  /** The row offset of the j-th of the nine offsets, numbered in the order
      the nested loops visit them: row offset first, then column offset. */
  function RowOffset(j: int): int {
    if j < 3 then -1 else if j < 6 then 0 else 1
  }

  function ColOffset(j: int): int {
    j - 3 * (RowOffset(j) + 1) - 1
  }

  /** Offset j holds a mine; offset 4 is the cell itself and never counts. */
  predicate OffsetMine(g: Grid, y: int, x: int, j: int) {
    j != 4 && MineAt(g, y + RowOffset(j), x + ColOffset(j))
  }

  /** The mines among the first k offsets. */
  function OffsetMines(g: Grid, y: int, x: int, k: nat): (n: nat)
    requires k <= 9
    ensures n <= if k > 4 then k - 1 else k
  {
    if k == 0 then 0 else OffsetMines(g, y, x, k - 1) + Indicator(OffsetMine(g, y, x, k - 1))
  }

  /** The number of mines around (y, x). */
  function NeighbourMines(g: Grid, y: int, x: int): (n: nat)
    ensures n <= 8
  {
    OffsetMines(g, y, x, 9)
  }

  /** Every cell's `minesAround` agrees with the mine layout. */
  ghost predicate Consistent(g: Grid) {
    forall y, x :: InGrid(g, y, x) ==> g[y][x].minesAround == NeighbourMines(g, y, x)
  }

  lemma {:induction false} OffsetMinesZeroIff(g: Grid, y: int, x: int, k: nat)
    requires k <= 9
    ensures OffsetMines(g, y, x, k) == 0 <==> forall j :: 0 <= j < k ==> !OffsetMine(g, y, x, j)
  {
    if k > 0 {
      OffsetMinesZeroIff(g, y, x, k - 1);
    }
  }

  /** A cell has no mines around it exactly when none of its in-grid
      neighbours is a mine. */
  lemma NeighbourMinesZeroIff(g: Grid, y: int, x: int)
    ensures NeighbourMines(g, y, x) == 0 <==> forall ny, nx :: Adjacent(y, x, ny, nx) ==> !MineAt(g, ny, nx)
  {
    OffsetMinesZeroIff(g, y, x, 9);
    forall ny, nx | Adjacent(y, x, ny, nx) && MineAt(g, ny, nx) ensures exists j :: 0 <= j < 9 && OffsetMine(g, y, x, j) {
      var j := 3 * (ny - y + 1) + (nx - x + 1);
      assert RowOffset(j) == ny - y && ColOffset(j) == nx - x;
      assert OffsetMine(g, y, x, j);
    }
    forall j | 0 <= j < 9 && OffsetMine(g, y, x, j) ensures Adjacent(y, x, y + RowOffset(j), x + ColOffset(j)) {
    }
  }

  lemma {:induction false} OffsetMinesFrame(g: Grid, h: Grid, y: int, x: int, k: nat)
    requires k <= 9
    requires forall ny, nx :: MineAt(g, ny, nx) == MineAt(h, ny, nx)
    ensures OffsetMines(g, y, x, k) == OffsetMines(h, y, x, k)
  {
    if k > 0 {
      OffsetMinesFrame(g, h, y, x, k - 1);
    }
  }

  /** Two boards with the same mines have the same counts everywhere. */
  lemma SameMinesSameCounts(g: Grid, h: Grid)
    requires SameShape(g, h)
    requires forall y, x :: InGrid(g, y, x) ==> g[y][x].isMine == h[y][x].isMine
    ensures forall y, x :: NeighbourMines(g, y, x) == NeighbourMines(h, y, x)
  {
    forall ny, nx ensures MineAt(g, ny, nx) == MineAt(h, ny, nx) {
      if InGrid(g, ny, nx) {
      }
    }
    forall y, x ensures NeighbourMines(g, y, x) == NeighbourMines(h, y, x) {
      OffsetMinesFrame(g, h, y, x, 9);
    }
  }

  /** The board with the mine at (y, x) taken away. */
  function RemoveMine(g: Grid, y: int, x: int): Grid
    requires InGrid(g, y, x)
  {
    g[y := g[y][x := g[y][x].(isMine := false)]]
  }

  /** Taking the mine at (ny, nx) away leaves every other position as it was. */
  lemma MineAtRemoved(g: Grid, ny: int, nx: int, py: int, px: int)
    requires InGrid(g, ny, nx)
    ensures MineAt(RemoveMine(g, ny, nx), py, px) == (MineAt(g, py, px) && (py != ny || px != nx))
  {
  }

  /** Offset j points at the neighbour (dy, dx) exactly when j is that
      neighbour's place in the visiting order. */
  lemma OffsetIndex(j: int, dy: int, dx: int)
    requires 0 <= j < 9 && -1 <= dy <= 1 && -1 <= dx <= 1
    ensures (RowOffset(j) == dy && ColOffset(j) == dx) <==> j == 3 * (dy + 1) + (dx + 1)
  {
  }

  /** Taking the mine at (ny, nx) away changes offset j only when j points
      at it. */
  lemma OffsetMineWithout(g: Grid, y: int, x: int, ny: int, nx: int, j: int)
    requires 0 <= j < 9
    requires Adjacent(y, x, ny, nx) && MineAt(g, ny, nx)
    ensures Indicator(OffsetMine(g, y, x, j)) ==
      Indicator(OffsetMine(RemoveMine(g, ny, nx), y, x, j)) + Indicator(j == 3 * (ny - y + 1) + (nx - x + 1))
  {
    MineAtRemoved(g, ny, nx, y + RowOffset(j), x + ColOffset(j));
    OffsetIndex(j, ny - y, nx - x);
  }

  lemma {:induction false} OffsetMinesWithout(g: Grid, y: int, x: int, ny: int, nx: int, k: nat)
    requires k <= 9
    requires Adjacent(y, x, ny, nx) && MineAt(g, ny, nx)
    ensures OffsetMines(g, y, x, k) == OffsetMines(RemoveMine(g, ny, nx), y, x, k) + Indicator(3 * (ny - y + 1) + (nx - x + 1) < k)
  {
    if k > 0 {
      OffsetMinesWithout(g, y, x, ny, nx, k - 1);
      OffsetMineWithout(g, y, x, ny, nx, k - 1);
    }
  }

  /** Each adjacent mine contributes exactly one to a cell's count: taking
      it away lowers the count by one. */
  lemma NeighbourMinesCountsEachMine(g: Grid, y: int, x: int, ny: int, nx: int)
    requires Adjacent(y, x, ny, nx) && MineAt(g, ny, nx)
    ensures NeighbourMines(g, y, x) == NeighbourMines(RemoveMine(g, ny, nx), y, x) + 1
  {
    OffsetMinesWithout(g, y, x, ny, nx, 9);
  }

  /** The board with every `minesAround` recomputed from the mine layout:
      only the counts change, and afterwards they are all consistent. */
  function Recount(g: Grid): (r: Grid)
    ensures SameShape(g, r)
    ensures forall y, x :: InGrid(g, y, x) ==>
      r[y][x] == g[y][x].(minesAround := r[y][x].minesAround) && 0 <= r[y][x].minesAround <= 8
    ensures Consistent(r)
  {
    var r := seq(|g|, (y: int) requires 0 <= y < |g| =>
      seq(|g[y]|, (x: int) requires 0 <= x < |g[y]| => g[y][x].(minesAround := NeighbourMines(g, y, x))));
    SameMinesSameCounts(g, r);
    r
  }

  /** Recounting a recounted board changes nothing, and a board is its own
      recount exactly when its counts are consistent. */
  lemma RecountIdempotent(g: Grid)
    ensures Recount(Recount(g)) == Recount(g)
    ensures Recount(g) == g <==> Consistent(g)
  {
    var r := Recount(g);
    GridExtensionality(Recount(r), r);
    if Consistent(g) {
      GridExtensionality(r, g);
    }
  }

  /** Visiting row offset r and column offset c adds that neighbour's mine
      to the count, unless it is the cell itself. */
  lemma OffsetMinesStep(g: Grid, y: int, x: int, r: int, c: int)
    requires 0 <= r < 3 && 0 <= c < 3
    ensures OffsetMines(g, y, x, 3 * r + c + 1) == OffsetMines(g, y, x, 3 * r + c) +
      Indicator((NeighboursLocations[r] != 0 || NeighboursLocations[c] != 0) && MineAt(g, y + NeighboursLocations[r], x + NeighboursLocations[c]))
  {
    var k := 3 * r + c;
    assert NeighboursLocations[r] == RowOffset(k) && NeighboursLocations[c] == ColOffset(k);
  }

  /** The count the nested offset loops of `setNumberOfMinesAround` compute
      for the cell at column i, row j. */
  method CountMinesAround(board: array2<Cell>, j: int, i: int) returns (minesCount: nat)
    requires 0 <= j < board.Length0 && 0 <= i < board.Length1
    ensures minesCount == NeighbourMines(ToGrid(board), j, i)
  {
    minesCount := 0;
    for r := 0 to 3
      invariant minesCount == OffsetMines(ToGrid(board), j, i, 3 * r)
    {
      for c := 0 to 3
        invariant minesCount == OffsetMines(ToGrid(board), j, i, 3 * r + c)
      {
        minesCount := CountOffsetMine(board, j, i, r, c, minesCount);
      }
    }
  }

  /** The body of the offset loops: adds one when the neighbour at row
      offset `neighboursLocations[r]` and column offset
      `neighboursLocations[c]` is a mine and not the cell itself. An
      off-board neighbour is skipped, as the source's `try`/`catch` skips it. */
  method CountOffsetMine(board: array2<Cell>, j: int, i: int, r: int, c: int, minesCount: nat) returns (count: nat)
    requires 0 <= r < 3 && 0 <= c < 3
    requires minesCount == OffsetMines(ToGrid(board), j, i, 3 * r + c)
    ensures count == OffsetMines(ToGrid(board), j, i, 3 * r + c + 1)
  {
    ghost var g: Grid := ToGrid(board);
    var row, col := NeighboursLocations[r], NeighboursLocations[c];
    OffsetMinesStep(g, j, i, r, c);
    count := minesCount;
    var isMine := 0 <= j + row < board.Length0 && 0 <= i + col < board.Length1 && board[j + row, i + col].isMine;
    assert isMine == MineAt(g, j + row, i + col);
    if isMine {
      if row != 0 || col != 0 {
        count := count + 1;
      }
    }
  }

  /** The cell at (y, x) of g with its count recomputed. */
  function Counted(g: Grid, y: int, x: int): Cell
    requires InGrid(g, y, x)
  {
    g[y][x].(minesAround := NeighbourMines(g, y, x))
  }

  /** `setNumberOfMinesAround`: writes into every cell the number of mines
      among its in-grid neighbours. The source reads the width from the
      first row, so the board must have one. */
  method SetNumberOfMinesAround(board: array2<Cell>)
    requires board.Length0 > 0
    modifies board
    ensures ToGrid(board) == Recount(old(ToGrid(board)))
  {
    ghost var g0: Grid := ToGrid(board);
    var i := 0;
    while i < board.Length1
      invariant 0 <= i <= board.Length1
      invariant forall y, x :: 0 <= y < board.Length0 && 0 <= x < board.Length1 ==>
        board[y, x] == if x < i then Counted(g0, y, x) else g0[y][x]
    {
      var j := 0;
      while j < board.Length0
        invariant 0 <= j <= board.Length0
        invariant forall y, x :: 0 <= y < board.Length0 && 0 <= x < board.Length1 ==>
          board[y, x] == if x < i || (x == i && y < j) then Counted(g0, y, x) else g0[y][x]
      {
        SameMinesSameCounts(g0, ToGrid(board));
        var minesCount := CountMinesAround(board, j, i);
        board[j, i] := board[j, i].(minesAround := minesCount);
        j := j + 1;
      }
      i := i + 1;
    }
    GridExtensionality(ToGrid(board), Recount(g0));
  }

  /** `generateMines`: places `minesNumber` mines on cells other than the
      first-clicked one, taking candidate cells from `random` in order and
      skipping the first cell and cells already mined, then recomputes every
      count. `complete` reports whether all the mines were placed before the
      candidates ran out. */
  method GenerateMines(board: array2<Cell>, difficultyLevel: DifficultyLevel, firstCell: Coord, random: seq<Coord>)
    returns (complete: bool)
    requires board.Length0 == difficultyLevel.boardHeight > 0 && board.Length1 == difficultyLevel.boardWidth
    requires forall k :: 0 <= k < |random| ==> 0 <= random[k].x < board.Length1 && 0 <= random[k].y < board.Length0
    modifies board
    ensures complete ==> MineCount(ToGrid(board)) == old(MineCount(ToGrid(board))) + Max0(difficultyLevel.minesNumber)
    ensures !complete ==> MineCount(ToGrid(board)) < old(MineCount(ToGrid(board))) + difficultyLevel.minesNumber
    ensures MinesAdded(old(ToGrid(board)), ToGrid(board), firstCell)
    ensures MinesFrom(old(ToGrid(board)), ToGrid(board), random)
    ensures Consistent(ToGrid(board))
    ensures (&& old(MineCount(ToGrid(board))) == 0
             && difficultyLevel.minesNumber <= board.Length0 * board.Length1 - 1
             && CoversBoard(random, board.Length0, board.Length1, firstCell))
            ==> complete
  {
    ghost var g0: Grid := ToGrid(board);
    var numberOfGeneratedMines := DrawMines(board, difficultyLevel.minesNumber, firstCell, random);
    complete := numberOfGeneratedMines >= difficultyLevel.minesNumber;
    ghost var placed: Grid := ToGrid(board);
    MinesPlacedAdded(g0, placed, firstCell);
    if !complete && CoversBoard(random, board.Length0, board.Length1, firstCell) {
      CandidatesCoverBoard(placed, board.Length1, firstCell, random);
    }
    SetNumberOfMinesAround(board);
    RecountKeepsMinesAdded(g0, placed, firstCell);
    RecountKeepsMinesFrom(g0, placed, random);
  }

  /** h is g with mines added on cells other than the first one: the open
      and flag states, the old mines and the first cell's mine state are
      all kept. */
  ghost predicate MinesAdded(g: Grid, h: Grid, firstCell: Coord) {
    && SameShape(g, h)
    && forall y, x :: InGrid(g, y, x) ==>
      && h[y][x].isOpen == g[y][x].isOpen
      && h[y][x].isMarked == g[y][x].isMarked
      && (g[y][x].isMine ==> h[y][x].isMine)
      && (y == firstCell.y && x == firstCell.x ==> h[y][x].isMine == g[y][x].isMine)
  }

  /** Recounting after placing mines keeps the placement and the mine count. */
  lemma RecountKeepsMinesAdded(g: Grid, h: Grid, firstCell: Coord)
    requires MinesAdded(g, h, firstCell)
    ensures MinesAdded(g, Recount(h), firstCell)
    ensures MineCount(Recount(h)) == MineCount(h)
  {
    GridCountSame(h, Recount(h), IsMine, IsMine);
  }

  /** Every cell that holds a mine in h but not in g is among the
      candidates: mines are only ever placed on drawn cells. */
  ghost predicate MinesFrom(g: Grid, h: Grid, candidates: seq<Coord>) {
    forall y, x :: InGrid(g, y, x) && InGrid(h, y, x) && h[y][x].isMine && !g[y][x].isMine ==> Coord(x, y) in candidates
  }

  /** Recounting moves no mine, so the new mines stay on drawn cells. */
  lemma RecountKeepsMinesFrom(g: Grid, h: Grid, candidates: seq<Coord>)
    requires SameShape(g, h) && MinesFrom(g, h, candidates)
    ensures MinesFrom(g, Recount(h), candidates)
  {
    forall y, x | InGrid(g, y, x) && InGrid(Recount(h), y, x) && Recount(h)[y][x].isMine && !g[y][x].isMine
      ensures Coord(x, y) in candidates
    {
      assert InGrid(h, y, x) && h[y][x].isMine;
    }
  }

  /** One more drawing pass on candidate c keeps the new mines on the drawn
      prefix extended by c. */
  lemma MinesFromStep(g: Grid, h: Grid, k: Grid, drawn: seq<Coord>, c: Coord)
    requires SameShape(g, h) && SameShape(h, k)
    requires MinesFrom(g, h, drawn) && MinesFrom(h, k, [c])
    requires forall y, x :: InGrid(g, y, x) && g[y][x].isMine ==> h[y][x].isMine
    ensures MinesFrom(g, k, drawn + [c])
  {
    forall y, x | InGrid(g, y, x) && InGrid(k, y, x) && k[y][x].isMine && !g[y][x].isMine
      ensures Coord(x, y) in drawn + [c]
    {
      assert InGrid(h, y, x);
      if h[y][x].isMine {
        assert Coord(x, y) in drawn;
      } else {
        assert Coord(x, y) in [c];
      }
    }
  }

  /** New mines on a drawn prefix are on the whole candidate sequence. */
  lemma MinesFromPrefix(g: Grid, h: Grid, random: seq<Coord>, k: int)
    requires 0 <= k <= |random| && MinesFrom(g, h, random[..k])
    ensures MinesFrom(g, h, random)
  {
    forall y, x | InGrid(g, y, x) && InGrid(h, y, x) && h[y][x].isMine && !g[y][x].isMine
      ensures Coord(x, y) in random
    {
      var j :| 0 <= j < k && random[..k][j] == Coord(x, y);
      assert random[j] == Coord(x, y);
    }
  }

  /** On an empty row of three cells, drawing only the middle cell can put
      a mine nowhere but in the middle. */
  lemma MinesOnlyOnDrawn(g: Grid, h: Grid)
    requires g == [[EmptyCell, EmptyCell, EmptyCell]]
    requires SameShape(g, h) && MinesFrom(g, h, [Coord(1, 0)])
    ensures !h[0][0].isMine && !h[0][2].isMine
  {
    assert InGrid(g, 0, 0) && InGrid(g, 0, 2);
  }

  /** h is g with mines added on cells other than the first one, and
      nothing else changed. */
  ghost predicate MinesPlaced(g: Grid, h: Grid, firstCell: Coord) {
    && SameShape(g, h)
    && forall y, x :: InGrid(g, y, x) ==>
      h[y][x] == g[y][x] || (h[y][x] == g[y][x].(isMine := true) && (y != firstCell.y || x != firstCell.x))
  }

  /** Every drawn candidate other than the first cell holds a mine. */
  ghost predicate DrawnMined(g: Grid, drawn: seq<Coord>, firstCell: Coord) {
    forall j :: 0 <= j < |drawn| && drawn[j] != firstCell ==> MineAt(g, drawn[j].y, drawn[j].x)
  }

  lemma MinesPlacedTransitive(g: Grid, h: Grid, k: Grid, firstCell: Coord)
    requires MinesPlaced(g, h, firstCell) && MinesPlaced(h, k, firstCell)
    ensures MinesPlaced(g, k, firstCell)
  {
    forall y, x | InGrid(g, y, x)
      ensures k[y][x] == g[y][x] || (k[y][x] == g[y][x].(isMine := true) && (y != firstCell.y || x != firstCell.x))
    {
      assert InGrid(h, y, x);
    }
  }

  /** Placing mines keeps every drawn candidate mined, and one more drawn
      candidate that now holds a mine extends the drawn prefix. */
  lemma DrawnMinedGrows(g: Grid, h: Grid, drawn: seq<Coord>, c: Coord, firstCell: Coord)
    requires MinesPlaced(g, h, firstCell) && DrawnMined(g, drawn, firstCell)
    requires c != firstCell ==> MineAt(h, c.y, c.x)
    ensures DrawnMined(h, drawn + [c], firstCell)
  {
    forall j | 0 <= j < |drawn| && drawn[j] != firstCell ensures MineAt(h, drawn[j].y, drawn[j].x) {
      assert MineAt(g, drawn[j].y, drawn[j].x);
    }
  }

  /** The drawn prefix grows by one candidate at a time. */
  lemma PrefixStep(random: seq<Coord>, k: int)
    requires 0 <= k < |random|
    ensures random[..k + 1] == random[..k] + [random[k]]
  {
  }

  /** One pass of the drawing loop keeps the loop's facts: the placement so
      far, the drawn prefix extended by c is mined, and the new mines lie on
      that prefix. */
  lemma DrawStep(g: Grid, h: Grid, k: Grid, drawn: seq<Coord>, c: Coord, firstCell: Coord)
    requires MinesPlaced(g, h, firstCell) && MinesPlaced(h, k, firstCell)
    requires DrawnMined(h, drawn, firstCell) && (c != firstCell ==> MineAt(k, c.y, c.x))
    requires MinesFrom(g, h, drawn) && MinesFrom(h, k, [c])
    ensures MinesPlaced(g, k, firstCell)
    ensures DrawnMined(k, drawn + [c], firstCell)
    ensures MinesFrom(g, k, drawn + [c])
  {
    MinesFromStep(g, h, k, drawn, c);
    MinesPlacedTransitive(g, h, k, firstCell);
    DrawnMinedGrows(h, k, drawn, c, firstCell);
  }

  /** Placing mines keeps the open and flag states, the old mines and the
      first cell's mine state. */
  lemma MinesPlacedAdded(g: Grid, h: Grid, firstCell: Coord)
    requires MinesPlaced(g, h, firstCell)
    ensures MinesAdded(g, h, firstCell)
  {
  }

  /** The drawing loop of `generateMines`: takes candidates in order until
      `requiredNumberOfMines` new mines are placed or the candidates run out;
      a candidate equal to the first cell, or already mined, places nothing. */
  method DrawMines(board: array2<Cell>, requiredNumberOfMines: int, firstCell: Coord, random: seq<Coord>)
    returns (numberOfGeneratedMines: nat)
    requires forall k :: 0 <= k < |random| ==> 0 <= random[k].x < board.Length1 && 0 <= random[k].y < board.Length0
    modifies board
    ensures numberOfGeneratedMines <= Max0(requiredNumberOfMines)
    ensures MineCount(ToGrid(board)) == old(MineCount(ToGrid(board))) + numberOfGeneratedMines
    ensures MinesPlaced(old(ToGrid(board)), ToGrid(board), firstCell)
    ensures MinesFrom(old(ToGrid(board)), ToGrid(board), random)
    ensures numberOfGeneratedMines < requiredNumberOfMines ==> DrawnMined(ToGrid(board), random, firstCell)
  {
    ghost var g0: Grid := ToGrid(board);
    numberOfGeneratedMines := 0;
    var k := 0;
    while numberOfGeneratedMines < requiredNumberOfMines && k < |random|
      invariant 0 <= k <= |random|
      invariant numberOfGeneratedMines <= Max0(requiredNumberOfMines)
      invariant MineCount(ToGrid(board)) == MineCount(g0) + numberOfGeneratedMines
      invariant MinesPlaced(g0, ToGrid(board), firstCell)
      invariant DrawnMined(ToGrid(board), random[..k], firstCell)
      invariant MinesFrom(g0, ToGrid(board), random[..k])
    {
      ghost var before: Grid := ToGrid(board);
      var placed := DrawMine(board, firstCell, random[k]);
      DrawStep(g0, before, ToGrid(board), random[..k], random[k], firstCell);
      PrefixStep(random, k);
      k := k + 1;
      if placed {
        numberOfGeneratedMines := numberOfGeneratedMines + 1;
      }
    }
    if numberOfGeneratedMines < requiredNumberOfMines {
      assert random[..k] == random;
    }
    MinesFromPrefix(g0, ToGrid(board), random, k);
  }

  /** One pass of the drawing loop on the candidate cell c: nothing happens
      when c is the first cell or already holds a mine; otherwise c gets a
      mine and `placed` is true. Afterwards c holds a mine unless it is the
      first cell. */
  method DrawMine(board: array2<Cell>, firstCell: Coord, c: Coord) returns (placed: bool)
    requires 0 <= c.y < board.Length0 && 0 <= c.x < board.Length1
    modifies board
    ensures MineCount(ToGrid(board)) == old(MineCount(ToGrid(board))) + Indicator(placed)
    ensures placed <==> c != firstCell && !old(board[c.y, c.x].isMine)
    ensures MinesPlaced(old(ToGrid(board)), ToGrid(board), firstCell)
    ensures MinesFrom(old(ToGrid(board)), ToGrid(board), [c])
    ensures c != firstCell ==> MineAt(ToGrid(board), c.y, c.x)
  {
    var x, y := c.x, c.y;
    placed := false;
    if firstCell.x == x && firstCell.y == y {
      return;
    }
    if !board[y, x].isMine {
      SetMine(board, y, x);
      placed := true;
    }
  }

  /** `board[y][x].isMine = true` on a cell that holds no mine yet. */
  method SetMine(board: array2<Cell>, y: int, x: int)
    requires 0 <= y < board.Length0 && 0 <= x < board.Length1 && !board[y, x].isMine
    modifies board
    ensures board[y, x] == old(board[y, x]).(isMine := true)
    ensures forall j, i :: 0 <= j < board.Length0 && 0 <= i < board.Length1 && (j != y || i != x) ==> board[j, i] == old(board[j, i])
    ensures MineCount(ToGrid(board)) == old(MineCount(ToGrid(board))) + 1
  {
    ghost var before: Grid := ToGrid(board);
    board[y, x] := board[y, x].(isMine := true);
    GridCountOneChange(before, ToGrid(board), y, x, IsMine);
  }

  function Max0(n: int): nat { if n < 0 then 0 else n }

  /** Every cell of a height x width board other than the first one is among
      the candidates. */
  predicate CoversBoard(random: seq<Coord>, height: int, width: int, firstCell: Coord) {
    forall y, x :: 0 <= y < height && 0 <= x < width && (y != firstCell.y || x != firstCell.x) ==> Coord(x, y) in random
  }

  /** When every cell but the first one was drawn and mined, all cells but
      at most one hold a mine. */
  lemma CandidatesCoverBoard(g: Grid, width: nat, firstCell: Coord, random: seq<Coord>)
    requires IsRectangle(g, width)
    requires DrawnMined(g, random, firstCell)
    requires CoversBoard(random, |g|, width, firstCell)
    ensures MineCount(g) + 1 >= |g| * width
  {
    forall y, x | InGrid(g, y, x) && (y != firstCell.y || x != firstCell.x) ensures IsMine(g[y][x]) {
      var j :| 0 <= j < |random| && random[j] == Coord(x, y);
    }
    GridCountAllButOne(g, IsMine, firstCell.y, firstCell.x);
    RectangleCellCount(g, width);
  }
}
