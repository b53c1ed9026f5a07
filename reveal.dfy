/** The reveal engine: the flood-fill reveal of `openCells`, which opens
    cells of the board in place and reports the game's status. */
module Reveal {
  import opened Board
  import opened Mines
  import opened Difficulty

  /** A cell a cascade does not open: already open, flagged, or a mine. */
  predicate Blocked(c: Cell) {
    c.isOpen || c.isMarked || c.isMine
  }

  /** `after` is `before`, or `before` opened; only a closed, unflagged cell
      that is not a mine is ever opened. */
  predicate OpenedOrKept(before: Cell, after: Cell) {
    after == before || (after == before.(isOpen := true) && !before.isOpen && !before.isMarked && !before.isMine)
  }

  /** h is g with some closed, unflagged, mine-free cells opened and nothing
      else changed. */
  ghost predicate Grew(g: Grid, h: Grid) {
    SameShape(g, h) && forall y, x :: InGrid(g, y, x) ==> OpenedOrKept(g[y][x], h[y][x])
  }

  /** Every in-grid neighbour of (y, x) is blocked. */
  ghost predicate Settled(g: Grid, y: int, x: int) {
    forall ny, nx :: Adjacent(y, x, ny, nx) && InGrid(g, ny, nx) ==> Blocked(g[ny][nx])
  }

  /** Every cell that h opened and that has no mines around it has no
      neighbour left that the cascade could still open. */
  ghost predicate CascadeClosed(g: Grid, h: Grid)
    requires SameShape(g, h)
  {
    forall y, x :: InGrid(g, y, x) && !g[y][x].isOpen && h[y][x].isOpen && h[y][x].minesAround <= 0 ==> Settled(h, y, x)
  }

  /** `revealed` lists, each once, exactly the cells that are closed in g and
      open in h. */
  ghost predicate OpenedExactly(g: Grid, h: Grid, revealed: seq<Coord>) {
    && (forall k :: 0 <= k < |revealed| ==>
          InGrid(g, revealed[k].y, revealed[k].x) && InGrid(h, revealed[k].y, revealed[k].x) &&
          !g[revealed[k].y][revealed[k].x].isOpen && h[revealed[k].y][revealed[k].x].isOpen)
    && (forall y, x :: InGrid(g, y, x) && InGrid(h, y, x) && !g[y][x].isOpen && h[y][x].isOpen ==> Coord(x, y) in revealed)
    && (forall a, b :: 0 <= a < b < |revealed| ==> revealed[a] != revealed[b])
  }

  /** The cascade passes from a to b: a is on the board with no mines around
      it in h, and b is one of its neighbours. */
  ghost predicate Spreads(h: Grid, a: Coord, b: Coord) {
    InGrid(h, a.y, a.x) && h[a.y][a.x].minesAround <= 0 && Adjacent(a.y, a.x, b.y, b.x)
  }

  /** Every cell of `revealed` after the first is a neighbour of an earlier one
      with no mines around it: the cells form one region grown from
      `revealed[0]` through cells with no mines around them. */
  ghost predicate Rooted(h: Grid, revealed: seq<Coord>) {
    forall k :: 0 < k < |revealed| ==> Reached(h, revealed, k)
  }

  /** Some cell before `revealed[k]` spreads to it. */
  ghost predicate Reached(h: Grid, revealed: seq<Coord>, k: int)
    requires 0 <= k < |revealed|
  {
    exists m :: 0 <= m < k && Spreads(h, revealed[m], revealed[k])
  }

  /** A reveal that opens nothing. */
  lemma NothingRevealed(g: Grid)
    ensures Grew(g, g) && CascadeClosed(g, g) && OpenedExactly(g, g, []) && Rooted(g, [])
  {
  }

  /** Two reveals in a row open the cells of the first, then those of the
      second. */
  lemma OpenedExactlyCompose(g: Grid, h: Grid, k: Grid, a: seq<Coord>, b: seq<Coord>)
    requires Grew(g, h) && Grew(h, k) && OpenedExactly(g, h, a) && OpenedExactly(h, k, b)
    ensures OpenedExactly(g, k, a + b)
  {
    var ab := a + b;
    forall j | 0 <= j < |ab|
      ensures InGrid(g, ab[j].y, ab[j].x) && InGrid(k, ab[j].y, ab[j].x)
      ensures !g[ab[j].y][ab[j].x].isOpen && k[ab[j].y][ab[j].x].isOpen
    {
      var c := ab[j];
      if j < |a| {
        assert c == a[j];
        assert OpenedOrKept(h[c.y][c.x], k[c.y][c.x]);
      } else {
        assert c == b[j - |a|];
        assert OpenedOrKept(g[c.y][c.x], h[c.y][c.x]);
      }
    }
    forall y, x | InGrid(g, y, x) && InGrid(k, y, x) && !g[y][x].isOpen && k[y][x].isOpen
      ensures Coord(x, y) in ab
    {
      assert OpenedOrKept(h[y][x], k[y][x]);
      if h[y][x].isOpen {
        assert Coord(x, y) in a;
      } else {
        assert Coord(x, y) in b;
      }
    }
    forall i, j | 0 <= i < j < |ab| ensures ab[i] != ab[j] {
      if i < |a| && |a| <= j {
        var c := ab[j];
        assert c == b[j - |a|] && !h[c.y][c.x].isOpen;
        assert ab[i] == a[i] && h[a[i].y][a[i].x].isOpen;
      }
    }
  }

  /** A reveal keeps every cell's count of mines around it, so a region
      stays rooted. */
  lemma RootedGrows(h: Grid, k: Grid, s: seq<Coord>)
    requires Grew(h, k) && Rooted(h, s)
    ensures Rooted(k, s)
  {
    forall j | 0 < j < |s| ensures Reached(k, s, j) {
      assert Reached(h, s, j);
      var m :| 0 <= m < j && Spreads(h, s[m], s[j]);
      assert OpenedOrKept(h[s[m].y][s[m].x], k[s[m].y][s[m].x]);
      assert Spreads(k, s[m], s[j]);
    }
  }

  /** A region rooted at a neighbour of the first cell of s, when that cell
      has no mines around it, extends s. */
  lemma RootedExtend(h: Grid, s: seq<Coord>, t: seq<Coord>)
    requires Rooted(h, s) && Rooted(h, t) && |s| > 0
    requires |t| > 0 ==> Spreads(h, s[0], t[0])
    ensures Rooted(h, s + t)
  {
    var st := s + t;
    forall j | 0 < j < |st| ensures Reached(h, st, j) {
      if j < |s| {
        assert Reached(h, s, j);
        var m :| 0 <= m < j && Spreads(h, s[m], s[j]);
        assert st[m] == s[m] && st[j] == s[j];
        assert Spreads(h, st[m], st[j]);
      } else if j == |s| {
        assert st[0] == s[0] && st[j] == t[0];
        assert Spreads(h, st[0], st[j]);
      } else {
        assert Reached(h, t, j - |s|);
        var m :| 0 <= m < j - |s| && Spreads(h, t[m], t[j - |s|]);
        assert st[m + |s|] == t[m] && st[j] == t[j - |s|];
        assert Spreads(h, st[m + |s|], st[j]);
      }
    }
  }

  lemma GrewTransitive(g: Grid, h: Grid, k: Grid)
    requires Grew(g, h) && Grew(h, k)
    ensures Grew(g, k)
  {
    forall y, x | InGrid(g, y, x) ensures OpenedOrKept(g[y][x], k[y][x]) {
      assert OpenedOrKept(g[y][x], h[y][x]) && OpenedOrKept(h[y][x], k[y][x]);
    }
  }

  lemma SettledGrows(h: Grid, k: Grid, y: int, x: int)
    requires Grew(h, k) && Settled(h, y, x)
    ensures Settled(k, y, x)
  {
    forall ny, nx | Adjacent(y, x, ny, nx) && InGrid(k, ny, nx) ensures Blocked(k[ny][nx]) {
      assert InGrid(h, ny, nx) && OpenedOrKept(h[ny][nx], k[ny][nx]);
    }
  }

  /** Two cascades in a row leave a closed cascade. */
  lemma CascadeClosedCompose(g: Grid, h: Grid, k: Grid)
    requires Grew(g, h) && Grew(h, k)
    requires CascadeClosed(g, h) && CascadeClosed(h, k)
    ensures CascadeClosed(g, k)
  {
    forall y, x | InGrid(g, y, x) && !g[y][x].isOpen && k[y][x].isOpen && k[y][x].minesAround <= 0
      ensures Settled(k, y, x)
    {
      assert OpenedOrKept(g[y][x], h[y][x]) && OpenedOrKept(h[y][x], k[y][x]);
      if h[y][x].isOpen {
        assert Settled(h, y, x);
        SettledGrows(h, k, y, x);
      }
    }
  }

  /** Opening one cell and then running a closed cascade that leaves that
      cell settled is a closed cascade. */
  lemma CascadeClosedFromTarget(g: Grid, h: Grid, k: Grid, y: int, x: int)
    requires Grew(g, h) && Grew(h, k) && CascadeClosed(h, k) && Settled(k, y, x)
    requires forall j, i :: InGrid(g, j, i) && (j != y || i != x) ==> h[j][i] == g[j][i]
    ensures CascadeClosed(g, k)
  {
    forall j, i | InGrid(g, j, i) && !g[j][i].isOpen && k[j][i].isOpen && k[j][i].minesAround <= 0
      ensures Settled(k, j, i)
    {
      if j != y || i != x {
        assert h[j][i] == g[j][i];
      }
    }
  }

  /** h is g with at most the cell at (y, x) changed. */
  ghost predicate OnlyChanged(g: Grid, h: Grid, y: int, x: int) {
    SameShape(g, h) && forall j, i :: InGrid(g, j, i) && (j != y || i != x) ==> h[j][i] == g[j][i]
  }

  /** Opening one closed, unflagged cell that is not a mine is a reveal, and
      when the cell has mines around it there is nothing to cascade. */
  lemma OpenedOne(g: Grid, h: Grid, y: int, x: int)
    requires OnlyChanged(g, h, y, x) && InGrid(g, y, x)
    requires h[y][x] == g[y][x].(isOpen := true) && !g[y][x].isOpen && !g[y][x].isMarked && !g[y][x].isMine
    ensures Grew(g, h)
    ensures OpenedExactly(g, h, [Coord(x, y)])
    ensures g[y][x].minesAround > 0 ==> CascadeClosed(g, h)
  {
    forall j, i | InGrid(g, j, i) ensures OpenedOrKept(g[j][i], h[j][i]) {
      if j != y || i != x {
        assert h[j][i] == g[j][i];
      }
    }
  }

  /** Opening cells never adds a closed cell. */
  lemma GrewClosedCount(g: Grid, h: Grid)
    requires Grew(g, h)
    ensures GetNumberOfClosedCells(h) <= GetNumberOfClosedCells(g)
  {
    forall y, x | InGrid(h, y, x) && IsClosed(h[y][x]) ensures IsClosed(g[y][x]) {
      assert OpenedOrKept(g[y][x], h[y][x]);
    }
    GridCountMonotone(g, h, IsClosed, IsClosed);
  }

  /** The closed-cell count is the source's win test: when the board holds
      `minesNumber` mines and none of them is open, the count equals
      `minesNumber` exactly when every cell that is not a mine is open. */
  lemma WinCheckMeansCleared(g: Grid, minesNumber: int)
    requires MineCount(g) == minesNumber
    requires forall y, x :: InGrid(g, y, x) && g[y][x].isMine ==> !g[y][x].isOpen
    ensures GetNumberOfClosedCells(g) == minesNumber <==> forall y, x :: InGrid(g, y, x) && !g[y][x].isMine ==> g[y][x].isOpen
  {
    GridCountSplit(g, IsClosed, IsClosedMine, IsClosedSafe);
    GridCountSame(g, g, IsMine, IsClosedMine);
    GridCountZeroIff(g, IsClosedSafe);
  }

  /** On a board whose counts are consistent, a cascade stops only at flags:
      every cell it opened with no mines around has each neighbour open or
      flagged. */
  lemma ConsistentCascadeStopsAtFlags(g: Grid, h: Grid)
    requires Consistent(g) && Grew(g, h) && CascadeClosed(g, h)
    ensures forall y, x, ny, nx ::
      (InGrid(g, y, x) && !g[y][x].isOpen && h[y][x].isOpen && h[y][x].minesAround == 0 && Adjacent(y, x, ny, nx) && InGrid(h, ny, nx))
      ==> (h[ny][nx].isOpen || h[ny][nx].isMarked)
  {
    forall y, x, ny, nx | InGrid(g, y, x) && !g[y][x].isOpen && h[y][x].isOpen && h[y][x].minesAround == 0 &&
      Adjacent(y, x, ny, nx) && InGrid(h, ny, nx)
      ensures h[ny][nx].isOpen || h[ny][nx].isMarked
    {
      assert OpenedOrKept(g[y][x], h[y][x]) && OpenedOrKept(g[ny][nx], h[ny][nx]);
      NeighbourMinesZeroIff(g, y, x);
      assert !MineAt(g, ny, nx);
      assert Settled(h, y, x);
    }
  }

  /** `board[y][x].isOpen = true` on a closed cell: the closed count drops by one. */
  method OpenCell(board: array2<Cell>, y: int, x: int)
    requires 0 <= y < board.Length0 && 0 <= x < board.Length1 && !board[y, x].isOpen
    modifies board
    ensures board[y, x] == old(board[y, x]).(isOpen := true)
    ensures forall j, i :: 0 <= j < board.Length0 && 0 <= i < board.Length1 && (j != y || i != x) ==> board[j, i] == old(board[j, i])
    ensures GetNumberOfClosedCells(ToGrid(board)) == old(GetNumberOfClosedCells(ToGrid(board))) - 1
  {
    ghost var before: Grid := ToGrid(board);
    board[y, x] := board[y, x].(isOpen := true);
    GridCountOneChange(before, ToGrid(board), y, x, IsClosed);
  }

  /** The neighbours at offsets before (r, c), in the order the nested
      offset loops visit them, are all blocked. */
  ghost predicate BlockedUpTo(g: Grid, y: int, x: int, r: int, c: int) {
    forall ny, nx :: Adjacent(y, x, ny, nx) && InGrid(g, ny, nx) && (ny - y + 1 < r || (ny - y + 1 == r && nx - x + 1 < c)) ==>
      Blocked(g[ny][nx])
  }

  lemma BlockedUpToGrows(h: Grid, k: Grid, y: int, x: int, r: int, c: int)
    requires Grew(h, k) && BlockedUpTo(h, y, x, r, c)
    ensures BlockedUpTo(k, y, x, r, c)
  {
    forall ny, nx | Adjacent(y, x, ny, nx) && InGrid(k, ny, nx) && (ny - y + 1 < r || (ny - y + 1 == r && nx - x + 1 < c))
      ensures Blocked(k[ny][nx])
    {
      assert InGrid(h, ny, nx) && OpenedOrKept(h[ny][nx], k[ny][nx]);
    }
  }

  lemma BlockedUpToStep(g: Grid, y: int, x: int, r: int, c: int)
    requires 0 <= c < 3 && BlockedUpTo(g, y, x, r, c)
    requires InGrid(g, y + r - 1, x + c - 1) && (r != 1 || c != 1) ==> Blocked(g[y + r - 1][x + c - 1])
    ensures BlockedUpTo(g, y, x, r, c + 1) && (c == 2 ==> BlockedUpTo(g, y, x, r + 1, 0))
  {
  }

  /** `BlockedUpToStep` with the visited neighbour read from the array. */
  lemma BlockedUpToStepAt(board: array2<Cell>, y: int, x: int, r: int, c: int)
    requires 0 <= r < 3 && 0 <= c < 3 && BlockedUpTo(ToGrid(board), y, x, r, c)
    requires 0 <= y + r - 1 < board.Length0 && 0 <= x + c - 1 < board.Length1 ==> Blocked(board[y + r - 1, x + c - 1])
    ensures BlockedUpTo(ToGrid(board), y, x, r, c + 1) && (c == 2 ==> BlockedUpTo(ToGrid(board), y, x, r + 1, 0))
  {
    BlockedUpToStep(ToGrid(board), y, x, r, c);
  }

  lemma BlockedUpToAll(g: Grid, y: int, x: int)
    requires BlockedUpTo(g, y, x, 3, 0)
    ensures Settled(g, y, x)
  {
  }

  /** `openCells`: reveals the cell at column x, row y.
      - An open or flagged target changes nothing and reports `GameWorks`.
      - A mine reports `GameOver` with every mine shown open; the board
        itself is left as it was, since the source builds a new one.
      - A safe cell with mines around opens alone, and reports `GameWon`
        exactly when the closed cells are as many as the mines.
      - A safe cell with no mines around opens and then reveals each
        in-grid neighbour that is neither flagged nor open, discarding what
        those reveals report, and reports `GameWorks`.
      `revealed` lists the cells the reveal opened, in the order it opened
      them: the target first, then cells reached from it through cells with
      no mines around them. */
  method OpenCells(board: array2<Cell>, x: int, y: int, difficultyLevel: DifficultyLevel)
    returns (gameBoard: Grid, gameStatus: GameStatus, ghost revealed: seq<Coord>)
    requires 0 <= y < board.Length0 && 0 <= x < board.Length1
    modifies board
    decreases GetNumberOfClosedCells(ToGrid(board)), 3
    ensures Grew(old(ToGrid(board)), ToGrid(board))
    ensures CascadeClosed(old(ToGrid(board)), ToGrid(board))
    ensures OpenedExactly(old(ToGrid(board)), ToGrid(board), revealed)
    ensures Rooted(ToGrid(board), revealed)
    ensures |revealed| > 0 ==> revealed[0] == Coord(x, y)
    ensures old(board[y, x].isOpen || board[y, x].isMarked) ==>
      unchanged(board) && gameStatus == GameWorks && gameBoard == ToGrid(board)
    ensures gameStatus == GameOver <==> old(!board[y, x].isOpen && !board[y, x].isMarked && board[y, x].isMine)
    ensures gameStatus == GameOver ==> unchanged(board) && gameBoard == OpenAllMineCells(old(ToGrid(board)))
    ensures gameStatus != GameOver ==> gameBoard == ToGrid(board)
    ensures old(!board[y, x].isOpen && !board[y, x].isMarked && !board[y, x].isMine) ==> board[y, x].isOpen
    ensures Blocked(board[y, x])
    ensures old(!board[y, x].isOpen && !board[y, x].isMarked && !board[y, x].isMine && board[y, x].minesAround > 0) ==>
      && OnlyChanged(old(ToGrid(board)), ToGrid(board), y, x)
      && GetNumberOfClosedCells(ToGrid(board)) == old(GetNumberOfClosedCells(ToGrid(board))) - 1
      && (gameStatus == GameWon <==> GetNumberOfClosedCells(ToGrid(board)) == difficultyLevel.minesNumber)
    ensures old(!board[y, x].isOpen && !board[y, x].isMarked && !board[y, x].isMine && board[y, x].minesAround <= 0) ==>
      gameStatus == GameWorks
  {
    revealed := [];
    if !board[y, x].isOpen && !board[y, x].isMarked {
      if board[y, x].isMine {
        gameBoard := OpenAllMineCells(ToGrid(board));
        gameStatus := GameOver;
        return;
      } else {
        if board[y, x].minesAround > 0 {
          ghost var g0: Grid := ToGrid(board);
          OpenCell(board, y, x);
          OpenedOne(g0, ToGrid(board), y, x);
          revealed := [Coord(x, y)];
          var areAllNonMineCellsOpen := GetNumberOfClosedCells(ToGrid(board)) == difficultyLevel.minesNumber;
          if areAllNonMineCellsOpen {
            gameBoard, gameStatus := ToGrid(board), GameWon;
            return;
          }
        } else {
          ghost var g0: Grid := ToGrid(board);
          OpenCell(board, y, x);
          ghost var g1: Grid := ToGrid(board);
          OpenedOne(g0, g1, y, x);
          ghost var cascade := OpenNeighbours(board, x, y, difficultyLevel, GetNumberOfClosedCells(g0));
          GrewTransitive(g0, g1, ToGrid(board));
          CascadeClosedFromTarget(g0, g1, ToGrid(board), y, x);
          OpenedExactlyCompose(g0, g1, ToGrid(board), [Coord(x, y)], cascade);
          revealed := [Coord(x, y)] + cascade;
        }
      }
    }
    gameBoard, gameStatus := ToGrid(board), GameWorks;
  }

  /** The cascade of `openCells` around the cell at column x, row y, which
      has just been opened: visits the nine offsets in the order of the
      nested `neighboursLocations` loops. Afterwards no neighbour is left
      that the cascade could open. `bound` is the closed-cell count before
      the cell was opened; it decreases along the recursion. `revealed` lists
      the cells the cascade opened, in order; together with the centre in
      front they form one region grown from the centre. */
  method OpenNeighbours(board: array2<Cell>, x: int, y: int, difficultyLevel: DifficultyLevel, ghost bound: nat)
    returns (ghost revealed: seq<Coord>)
    requires 0 <= y < board.Length0 && 0 <= x < board.Length1
    requires board[y, x].isOpen && board[y, x].minesAround <= 0
    requires GetNumberOfClosedCells(ToGrid(board)) < bound
    modifies board
    decreases bound, 2
    ensures Grew(old(ToGrid(board)), ToGrid(board))
    ensures CascadeClosed(old(ToGrid(board)), ToGrid(board))
    ensures OpenedExactly(old(ToGrid(board)), ToGrid(board), revealed)
    ensures Rooted(ToGrid(board), [Coord(x, y)] + revealed)
    ensures Settled(ToGrid(board), y, x)
  {
    ghost var g1: Grid := ToGrid(board);
    revealed := [];
    for r := 0 to 3
      invariant Grew(g1, ToGrid(board)) && CascadeClosed(g1, ToGrid(board))
      invariant OpenedExactly(g1, ToGrid(board), revealed) && Rooted(ToGrid(board), [Coord(x, y)] + revealed)
      invariant board[y, x] == g1[y][x]
      invariant BlockedUpTo(ToGrid(board), y, x, r, 0)
    {
      for c := 0 to 3
        invariant Grew(g1, ToGrid(board)) && CascadeClosed(g1, ToGrid(board))
        invariant OpenedExactly(g1, ToGrid(board), revealed) && Rooted(ToGrid(board), [Coord(x, y)] + revealed)
        invariant board[y, x] == g1[y][x]
        invariant BlockedUpTo(ToGrid(board), y, x, r, c)
      {
        ghost var before: Grid := ToGrid(board);
        GrewClosedCount(g1, before);
        ghost var step := OpenNeighbour(board, x, y, r, c, difficultyLevel, bound);
        BlockedUpToGrows(before, ToGrid(board), y, x, r, c);
        BlockedUpToStepAt(board, y, x, r, c);
        CascadeStep(g1, before, ToGrid(board), y, x, revealed, step);
        revealed := revealed + step;
      }
    }
    BlockedUpToAll(ToGrid(board), y, x);
  }

  /** One pass of the cascade loop keeps the loop's facts: the cells opened
      so far, followed by those of the pass, are exactly the opened cells,
      and they still form one region grown from the open centre. */
  lemma CascadeStep(g: Grid, h: Grid, k: Grid, y: int, x: int, revealed: seq<Coord>, step: seq<Coord>)
    requires Grew(g, h) && CascadeClosed(g, h) && Grew(h, k) && CascadeClosed(h, k)
    requires OpenedExactly(g, h, revealed) && OpenedExactly(h, k, step)
    requires InGrid(h, y, x) && h[y][x].isOpen && h[y][x].minesAround <= 0
    requires Rooted(h, [Coord(x, y)] + revealed) && Rooted(k, step)
    requires |step| > 0 ==> -1 <= step[0].y - y <= 1 && -1 <= step[0].x - x <= 1
    ensures Grew(g, k) && CascadeClosed(g, k)
    ensures OpenedExactly(g, k, revealed + step) && Rooted(k, [Coord(x, y)] + (revealed + step))
    ensures k[y][x] == h[y][x]
  {
    GrewTransitive(g, h, k);
    CascadeClosedCompose(g, h, k);
    OpenedExactlyCompose(g, h, k, revealed, step);
    RootedGrows(h, k, [Coord(x, y)] + revealed);
    assert OpenedOrKept(h[y][x], k[y][x]);
    if |step| > 0 {
      assert !h[step[0].y][step[0].x].isOpen;
      assert Spreads(k, Coord(x, y), step[0]);
    }
    RootedExtend(k, [Coord(x, y)] + revealed, step);
    assert [Coord(x, y)] + revealed + step == [Coord(x, y)] + (revealed + step);
  }

  /** One step of the cascade: the neighbour at row offset
      `neighboursLocations[r]` and column offset `neighboursLocations[c]` is
      revealed when it is on the board, not flagged and not open; what that
      reveal reports is discarded. Afterwards the neighbour at this offset
      is blocked. `revealed` lists the cells the pass
      opened, in order, starting from the neighbour at this offset. */
  method OpenNeighbour(board: array2<Cell>, x: int, y: int, r: int, c: int, difficultyLevel: DifficultyLevel, ghost bound: nat)
    returns (ghost revealed: seq<Coord>)
    requires 0 <= r < 3 && 0 <= c < 3
    requires GetNumberOfClosedCells(ToGrid(board)) < bound
    modifies board
    decreases bound, 1
    ensures Grew(old(ToGrid(board)), ToGrid(board))
    ensures CascadeClosed(old(ToGrid(board)), ToGrid(board))
    ensures OpenedExactly(old(ToGrid(board)), ToGrid(board), revealed) && Rooted(ToGrid(board), revealed)
    ensures |revealed| > 0 ==> revealed[0] == Coord(x + c - 1, y + r - 1)
    ensures 0 <= y + r - 1 < board.Length0 && 0 <= x + c - 1 < board.Length1 ==> Blocked(board[y + r - 1, x + c - 1])
  {
    var row, col := NeighboursLocations[r], NeighboursLocations[c];
    assert row == r - 1 && col == c - 1;
    if 0 <= y + row < board.Length0 && 0 <= x + col < board.Length1 &&
       !board[y + row, x + col].isMarked && !board[y + row, x + col].isOpen
    {
      revealed := RevealDiscarding(board, x + col, y + row, difficultyLevel, bound);
    } else {
      revealed := [];
      NothingRevealed(ToGrid(board));
    }
  }

  /** The nested `openCells` call of the cascade, on a neighbour that is on
      the board: the board and status it returns are discarded, so only its
      effect on the board is kept. Afterwards that neighbour is open, flagged
      or a mine, and `revealed` lists what the nested reveal opened. */
  method RevealDiscarding(board: array2<Cell>, x: int, y: int, difficultyLevel: DifficultyLevel, ghost bound: nat)
    returns (ghost revealed: seq<Coord>)
    requires 0 <= y < board.Length0 && 0 <= x < board.Length1
    requires GetNumberOfClosedCells(ToGrid(board)) < bound
    modifies board
    decreases bound, 0
    ensures Grew(old(ToGrid(board)), ToGrid(board))
    ensures CascadeClosed(old(ToGrid(board)), ToGrid(board))
    ensures OpenedExactly(old(ToGrid(board)), ToGrid(board), revealed) && Rooted(ToGrid(board), revealed)
    ensures |revealed| > 0 ==> revealed[0] == Coord(x, y)
    ensures Blocked(board[y, x])
  {
    var discardedBoard, discardedStatus;
    discardedBoard, discardedStatus, revealed := OpenCells(board, x, y, difficultyLevel);
  }

  /** No mine of g is open. */
  ghost predicate NoOpenMine(g: Grid) {
    forall y, x :: InGrid(g, y, x) && g[y][x].isMine ==> !g[y][x].isOpen
  }

  /** Every cell of g that is not a mine is open: the game is won. */
  ghost predicate Cleared(g: Grid) {
    forall y, x :: InGrid(g, y, x) && !g[y][x].isMine ==> g[y][x].isOpen
  }

  /** A reveal never moves, adds or opens a mine. */
  lemma GrewKeepsMines(g: Grid, h: Grid)
    requires Grew(g, h)
    ensures MineCount(h) == MineCount(g)
    ensures NoOpenMine(g) ==> NoOpenMine(h)
  {
    forall y, x | InGrid(g, y, x) ensures IsMine(g[y][x]) <==> IsMine(h[y][x]) {
      assert OpenedOrKept(g[y][x], h[y][x]);
    }
    GridCountSame(g, h, IsMine, IsMine);
    if NoOpenMine(g) {
      forall y, x | InGrid(h, y, x) && h[y][x].isMine ensures !h[y][x].isOpen {
        assert OpenedOrKept(g[y][x], h[y][x]);
      }
    }
  }

  /** `openCells` as written, on a one-row board of three cells: a mine, a
      cell with one mine around it, and a cell with none; one mine in all.
      Revealing the last cell cascades into the middle one, which leaves
      only the mine closed, yet the reveal reports `GameWorks`: the win
      found by the nested reveal is discarded. */
  method MissedWinOnCascade() returns (after: Grid, gameStatus: GameStatus)
    ensures |after| == 1 && |after[0]| == 3
    ensures after[0][0].isMine && !after[0][1].isMine && !after[0][2].isMine
    ensures Cleared(after) && NoOpenMine(after)
    ensures GetNumberOfClosedCells(after) == 1
    ensures gameStatus == GameWorks
  {
    var board := new Cell[1, 3];
    board[0, 0] := Cell(false, true, false, 0);
    board[0, 1] := Cell(false, false, false, 1);
    board[0, 2] := Cell(false, false, false, 0);
    ghost var g0: Grid := ToGrid(board);
    assert g0[0] == [board[0, 0], board[0, 1], board[0, 2]];
    assert g0 == [g0[0]];
    var gameBoard;
    ghost var revealed;
    gameBoard, gameStatus, revealed := OpenCells(board, 2, 0, DifficultyLevel(0, 3, 1, 1));
    after := ToGrid(board);
    CascadeClearsRow(g0, after);
  }

  /** On the board of `MissedWinOnCascade`, a reveal that opened the last
      cell and left its cascade closed has opened every safe cell. */
  lemma CascadeClearsRow(g: Grid, h: Grid)
    requires g == [[Cell(false, true, false, 0), Cell(false, false, false, 1), Cell(false, false, false, 0)]]
    requires Grew(g, h) && CascadeClosed(g, h) && h[0][2].isOpen
    ensures |h| == 1 && |h[0]| == 3
    ensures h[0][0].isMine && !h[0][1].isMine && !h[0][2].isMine
    ensures Cleared(h) && NoOpenMine(h)
    ensures GetNumberOfClosedCells(h) == 1
  {
    assert OpenedOrKept(g[0][0], h[0][0]) && OpenedOrKept(g[0][1], h[0][1]) && OpenedOrKept(g[0][2], h[0][2]);
    assert Settled(h, 0, 2);
    assert Adjacent(0, 2, 0, 1) && InGrid(h, 0, 1);
    var row := h[0];
    assert row[1..][1..][1..] == [];
    assert CountInRow(row, IsClosed) == 1 + CountInRow(row[1..], IsClosed) == 1 + CountInRow(row[1..][1..], IsClosed);
    assert h[1..] == [];
  }

  /** The corrected reveal: `openCells`, then the win test on the board it
      leaves, so that a win completed inside a cascade is reported as well.
      On a board holding `minesNumber` mines, none of them open, it reports
      `GameWon` exactly when the reveal did not hit a mine and every cell
      that is not a mine is open. */
  method OpenCellsAndCheckWin(board: array2<Cell>, x: int, y: int, difficultyLevel: DifficultyLevel)
    returns (gameBoard: Grid, gameStatus: GameStatus, ghost revealed: seq<Coord>)
    requires 0 <= y < board.Length0 && 0 <= x < board.Length1
    modifies board
    ensures Grew(old(ToGrid(board)), ToGrid(board))
    ensures CascadeClosed(old(ToGrid(board)), ToGrid(board))
    ensures OpenedExactly(old(ToGrid(board)), ToGrid(board), revealed) && Rooted(ToGrid(board), revealed)
    ensures |revealed| > 0 ==> revealed[0] == Coord(x, y)
    ensures old(!board[y, x].isOpen && !board[y, x].isMarked && !board[y, x].isMine) ==> board[y, x].isOpen
    ensures Blocked(board[y, x])
    ensures gameStatus == GameOver <==> old(!board[y, x].isOpen && !board[y, x].isMarked && board[y, x].isMine)
    ensures gameStatus == GameOver ==> unchanged(board) && gameBoard == OpenAllMineCells(old(ToGrid(board)))
    ensures gameStatus != GameOver ==> gameBoard == ToGrid(board)
    ensures gameStatus == GameWon <==> gameStatus != GameOver && GetNumberOfClosedCells(ToGrid(board)) == difficultyLevel.minesNumber
    ensures MineCount(old(ToGrid(board))) == difficultyLevel.minesNumber && NoOpenMine(old(ToGrid(board))) ==>
      (gameStatus == GameWon <==> gameStatus != GameOver && Cleared(ToGrid(board)))
  {
    ghost var g0: Grid := ToGrid(board);
    gameBoard, gameStatus, revealed := OpenCells(board, x, y, difficultyLevel);
    if gameStatus == GameWorks && GetNumberOfClosedCells(ToGrid(board)) == difficultyLevel.minesNumber {
      gameStatus := GameWon;
    }
    if MineCount(g0) == difficultyLevel.minesNumber && NoOpenMine(g0) {
      GrewKeepsMines(g0, ToGrid(board));
      WinCheckMeansCleared(ToGrid(board), difficultyLevel.minesNumber);
    }
  }

  /** The cascade opens no more than the region grown from its target: on
      one row holding a cell with no mines around it, a cell with one, a
      mine, a cell with one and a cell with none, a reveal of the first
      cell leaves the last two closed, because the only way across the mine
      leads through a cell with a mine around it. */
  lemma CascadeStopsAtNumbers(g: Grid, h: Grid, revealed: seq<Coord>)
    requires g == [[Cell(false, false, false, 0), Cell(false, false, false, 1), Cell(false, true, false, 0),
                    Cell(false, false, false, 1), Cell(false, false, false, 0)]]
    requires Grew(g, h) && OpenedExactly(g, h, revealed) && Rooted(h, revealed)
    requires |revealed| > 0 ==> revealed[0] == Coord(0, 0)
    ensures !h[0][3].isOpen && !h[0][4].isOpen
  {
    forall k | 0 <= k < |revealed| ensures revealed[k].x <= 1 {
      RevealedStaysLeft(g, h, revealed, k);
    }
  }

  lemma {:induction false} RevealedStaysLeft(g: Grid, h: Grid, revealed: seq<Coord>, k: int)
    requires g == [[Cell(false, false, false, 0), Cell(false, false, false, 1), Cell(false, true, false, 0),
                    Cell(false, false, false, 1), Cell(false, false, false, 0)]]
    requires Grew(g, h) && OpenedExactly(g, h, revealed) && Rooted(h, revealed)
    requires |revealed| > 0 ==> revealed[0] == Coord(0, 0)
    requires 0 <= k < |revealed|
    ensures revealed[k].x <= 1
    decreases k
  {
    if k > 0 {
      assert Reached(h, revealed, k);
      var m :| 0 <= m < k && Spreads(h, revealed[m], revealed[k]);
      RevealedStaysLeft(g, h, revealed, m);
      var a := revealed[m];
      assert OpenedOrKept(g[a.y][a.x], h[a.y][a.x]);
    }
  }
}
