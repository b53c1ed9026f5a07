# Minesweeper board engine, modelled in Dafny

This project models the board engine of a browser Minesweeper game: the rules that act on a rectangular grid of cells indexed `board[y][x]` (row y, column x). Each cell records whether it is open, whether it holds a mine, whether it carries a flag, and how many mines stand around it. The model covers:

- the difficulty presets;
- creating an empty board;
- placing mines so that the first-clicked cell stays free;
- counting each cell's adjacent mines;
- the flood-fill reveal and the game status it reports;
- opening every mine after a loss;
- toggling flags;
- counting flags and closed cells.

The model has four modules:

- `Difficulty` (`difficulty.dfy`) holds the preset record and the preset table.
- `Board` (`board.dfy`) holds the cell record and the game status. It also has the operations the source writes as `map`/`filter` transformations, as functions over the value `Grid = seq<seq<Cell>>`:
  - board creation;
  - the loss reveal;
  - flag toggling;
  - the two counting queries.

  It also holds the counting lemmas the other modules build on.
- `Mines` (`mines.dfy`) holds mine placement and adjacency counting. The source writes these in place, so they are methods over an `array2<Cell>`. Their contracts are stated through `ToGrid`, the grid value an array holds. Each is proved against a specification function: `Recount` recomputes every count, and `NeighbourMines` counts the mines around one cell.
- `Reveal` (`reveal.dfy`) holds the recursive flood-fill reveal `OpenCells`. It works in place on the same array and returns a grid value together with the status. Each reveal also returns a ghost list `revealed` of the cells it opened, in the order it opened them. Four predicates state what a reveal may do:
  - `Grew`: only closed, unflagged, mine-free cells are opened, and nothing else changes.
  - `CascadeClosed`: every cell the reveal opened with no mines around it has no neighbour left that a reveal could still open. This bounds the opened region from below.
  - `OpenedExactly`: `revealed` holds, each once, exactly the cells the reveal opened.
  - `Rooted`: every cell of `revealed` after the first is a neighbour of an earlier one with no mines around it. Since the first is the target, this bounds the opened region from above: only cells reached from the target through cells with no mines around them are opened.

  The recursion terminates because the number of closed cells strictly decreases. The cascade is split over three methods that are mutually recursive with `OpenCells`:
  - `OpenNeighbours` runs the nested neighbour loops.
  - `OpenNeighbour` is one pass of their body.
  - `RevealDiscarding` is the nested call whose result is thrown away.

  All three are bounded by the closed-cell count from before the centre cell was opened.

## Model

| member | source | states |
|---|---|---|
| Difficulty.DifficultyLevels | src/utils/difficultyLevel.ts:8-12 | exactly three presets, with levels 1, 2, 3; each has a positive width and height and at most width*height-1 mines, so every mine fits beside the first click |
| Board.CountFlaggedCells | src/utils/game.ts:23-27 | the flag count is at most the number of cells, and it is zero exactly when no cell is flagged |
| Board.GetNumberOfClosedCells | src/utils/game.ts:188-192 | the closed count is at most the number of cells, and it is zero exactly when every cell is open |
| Board.GenerateCells | src/utils/game.ts:103-117 | boardHeight rows of boardWidth cells, each closed, unflagged, mine-free and with no mines around |
| Board.GenerateCellsCounts | src/utils/game.ts:103-117 | a new board has all width*height cells closed, no flag and no mine |
| Board.OpenAllMineCells | src/utils/game.ts:124-130 | same shape; only `isOpen` may change; every mine is open; every cell that is not a mine is identical to before |
| Board.OpenAllMineCellsClosedCount | src/utils/game.ts:124-130 | after the loss reveal, the closed cells are exactly the closed non-mines; revealing the mines a second time changes nothing |
| Board.PlaceMarker | src/utils/game.ts:201-215 | same shape; every other cell is kept; at the target, `isOpen` is kept and the flag flips exactly when the cell is closed |
| Board.PlaceMarkerNoOp | src/utils/game.ts:201-215 | the board comes back unchanged exactly when the target is off the board or open |
| Board.PlaceMarkerTwice | src/utils/game.ts:201-215 | toggling the same cell twice restores the board |
| Board.PlaceMarkerCounts | src/utils/game.ts:201-215 | the closed and mine counts are unchanged; on a closed in-grid target the flag count moves by exactly one, down if the cell was flagged and up otherwise |
| Mines.NeighbourMines | src/utils/game.ts:75-87 | a cell has at most eight mines around it |
| Mines.NeighbourMinesZeroIff | src/utils/game.ts:75-87 | a cell's count is zero exactly when none of its in-grid neighbours is a mine |
| Mines.NeighbourMinesCountsEachMine | src/utils/game.ts:78-82 | each adjacent mine adds exactly one to the count, and off-grid positions add nothing |
| Mines.CountMinesAround | src/utils/game.ts:75-87 | the nested offset loops compute exactly the number of in-grid neighbours, excluding the cell itself, that are mines |
| Mines.CountOffsetMine | src/utils/game.ts:77-85 | one pass of the loop body adds one exactly when the neighbour at that offset is on the board, is a mine and is not the cell itself |
| Mines.Recount | src/utils/game.ts:70-95 | same shape; only `minesAround` changes; every count lies in 0..8 and agrees with the mine layout |
| Mines.RecountIdempotent | src/utils/game.ts:70-95 | recounting twice gives the same board, and a board is its own recount exactly when its counts are consistent |
| Mines.SetNumberOfMinesAround | src/utils/game.ts:70-95 | the board after the column-by-row loops is the recount of the board before |
| Mines.SetMine | src/utils/game.ts:54-57 | mining a mine-free cell changes only that cell's `isMine`, and the mine count rises by one |
| Mines.DrawMine | src/utils/game.ts:47-57 | one pass on a candidate places a mine exactly when the candidate is not the first cell and holds no mine; the mine count rises by one exactly then; only `isMine` changes, never on the first cell; afterwards the candidate holds a mine unless it is the first cell; the only cell that can gain a mine is the candidate |
| Mines.DrawMines | src/utils/game.ts:46-58 | the mine count rises by the number of mines placed, which never exceeds the number required; only `isMine` changes, and never on the first cell; if fewer mines were placed than required, every candidate other than the first cell holds a mine; every cell that gained a mine is one of the candidates |
| Mines.MinesOnlyOnDrawn | src/utils/game.ts:47-57 | on an empty row of three cells, when only the middle cell is drawn, no mine can appear on the first or last cell |
| Mines.RecountKeepsMinesAdded | src/utils/game.ts:60 | recounting after placement keeps the open and flag states, the mines and the mine count |
| Mines.CandidatesCoverBoard | src/utils/game.ts:46-58 | once every cell except the first has been drawn and mined, all cells except at most one hold a mine |
| Mines.GenerateMines | src/utils/game.ts:35-63 | when complete, exactly `minesNumber` new mines were added; when not, fewer. The first cell's mine state is unchanged; `isOpen` and `isMarked` are untouched; old mines stay; every new mine is on a cell drawn from `random`; all counts are consistent afterwards. On an empty board with room for every mine beside the first click, it completes whenever the candidates cover every other cell |
| Reveal.OpenCell | src/utils/game.ts:153 | opening a closed cell changes only that cell's `isOpen`, and the closed count falls by one |
| Reveal.OpenedOne | src/utils/game.ts:152-154 | opening one closed, unflagged, mine-free cell is a reveal that opens exactly that cell, and when the cell has mines around it no cascade is owed |
| Reveal.GrewClosedCount | src/utils/game.ts:140-181 | a reveal never adds a closed cell, which is the decreasing measure of the recursion |
| Reveal.GrewKeepsMines | src/utils/game.ts:140-181 | a reveal never moves, adds or opens a mine |
| Reveal.OpenCells | src/utils/game.ts:140-181 | on an open or flagged target, nothing changes and the status is `GameWorks`. The status is `GameOver` exactly on a closed, unflagged mine; then the array is untouched and the returned board is `OpenAllMineCells` of the old one. Otherwise only closed, unflagged non-mines are opened and the target is opened. A target with mines around opens alone, the closed count falls by one, and the status is `GameWon` exactly when the closed count equals `minesNumber`. A target with none around reports `GameWorks` and leaves no opened zero cell with an openable neighbour. In every case the target ends open, flagged or a mine. `revealed` lists exactly the opened cells, each once, starting with the target; each later one is a neighbour of an earlier one with no mines around it, so the reveal opens only the region grown from the target through such cells |
| Reveal.OpenNeighbours | src/utils/game.ts:164-177 | the cascade opens only closed, unflagged non-mines, and afterwards every in-grid neighbour of the centre is open, flagged or a mine; `revealed` lists exactly the opened cells, each once, and with the centre in front every one is a neighbour of an earlier cell with no mines around it |
| Reveal.OpenNeighbour | src/utils/game.ts:166-174 | one pass of the loop body leaves the neighbour at its offset open, flagged or a mine, opening only closed, unflagged non-mines; `revealed` lists exactly the opened cells, starting with that neighbour, and forms one region grown from it |
| Reveal.RevealDiscarding | src/utils/game.ts:171 | the nested reveal opens only closed, unflagged non-mines, leaves its cascade closed, and leaves its target open, flagged or a mine; `revealed` lists exactly the opened cells, starting with the target, and forms one region grown from it |
| Reveal.WinCheckMeansCleared | src/utils/game.ts:155-156 | on a board holding `minesNumber` mines, none of them open, the closed count equals `minesNumber` exactly when every cell that is not a mine is open |
| Reveal.ConsistentCascadeStopsAtFlags | src/utils/game.ts:161-177 | on a board with consistent counts, every zero cell a reveal opened has each neighbour open or flagged |
| Reveal.MissedWinOnCascade | src/utils/game.ts:161-180 | a concrete one-row board on which a reveal leaves only the mine closed, yet the status is `GameWorks` |
| Reveal.CascadeClearsRow | src/utils/game.ts:161-177 | on that board, any reveal that opens the last cell and leaves its cascade closed has opened every safe cell, and one cell stays closed |
| Reveal.CascadeStopsAtNumbers | src/utils/game.ts:161-177 | on one row of a zero cell, a cell with one mine around, a mine, a cell with one and a zero cell, any reveal rooted at the first cell leaves the last two closed: the cascade does not cross a cell with mines around it |
| Reveal.OpenCellsAndCheckWin | src/utils/game.ts:140-181 | the same reveal: a closed, unflagged safe target ends open, and the target always ends open, flagged or a mine. Its status is `GameWon` exactly when no mine was hit and the closed count equals `minesNumber`; on a board holding that many mines, none open, this means every cell that is not a mine is open; it opens exactly the same region as `OpenCells` |

## Left out

- The user interface (`src/App.tsx` and the components) is not part of this model: React state, the game timer, event wiring, rendering, and the first-click sequencing that creates the board and places mines.
- `src/hooks/useLocalStorage.ts` is not part of this model. It is browser storage I/O.
- The status-to-text lookup in `src/utils/gameStatusInformation.ts` is not part of this model. It is a trivial string table.
- `Math.random` is not modelled. Mine placement takes its candidate cells from a caller-supplied sequence `random`, in order, one `Coord` per pair of draws.
- Mines.GenerateMines: the source loops until every mine is placed and never stops if the mines cannot fit. The model consumes a finite candidate sequence instead. It promises exactly `minesNumber` new mines only when it reports `complete`, and it proves `complete` when three things hold: the board holds no mines yet, `minesNumber` is at most width*height - 1, and the candidates cover every cell other than the first.
- The `try`/`catch` around neighbour access in `setNumberOfMinesAround` and `openCells` is modelled as explicit index-range checks.
- The grid is modelled as rectangular (an `array2`, or a rectangle of sequences). A jagged array of rows is not modelled.
- Mines.SetNumberOfMinesAround requires a board with at least one row, because the source reads its width from `board[0]`.
- The sharing of cell objects between the old and new boards built by `openAllMineCells` and `placeMarker` is not modelled. Cells are values, so aliasing between boards cannot be observed in the model.
- Reveal.OpenCells returns the board it worked on as a grid value (`ToGrid` of the array) rather than the same array reference. In the mine branch, the array is left as it was and the returned value is the freshly built board.
- Numbers are unbounded integers. The source's counts stay far below any float precision limit.

## Findings

| source | as written | input that shows it | evidently intended | confidence | as-written member | corrected member |
|---|---|---|---|---|---|---|
| src/utils/game.ts:161-180 | the zero-count cascade discards the status of its recursive reveals and always returns `GameWorks` | one row of three cells: a mine, a cell with one mine around, and a cell with none; `minesNumber` 1; reveal column 2. The cascade opens columns 1 and 2, leaving only the mine closed, yet the status is `GameWorks` | a reveal that leaves only the mines closed reports `GameWon`, whichever branch opened the last safe cell | not executed | Reveal.MissedWinOnCascade | Reveal.OpenCellsAndCheckWin |
