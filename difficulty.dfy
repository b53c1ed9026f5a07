/** The difficulty presets of the game: the board's dimensions and how many
    mines it holds. */
module Difficulty {

  /** One preset (`DiffucultyLevelType`). */
  datatype DifficultyLevel = DifficultyLevel(level: int, boardWidth: int, boardHeight: int, minesNumber: int)

  /** A preset the engine can play: a non-empty board with at least one cell
      left free besides the first click, so that mine placement, which never
      mines the first cell, can place every mine. */
  predicate Playable(d: DifficultyLevel) {
    && d.boardWidth > 0
    && d.boardHeight > 0
    && 0 <= d.minesNumber <= d.boardWidth * d.boardHeight - 1
  }

  /** The preset table (`difficultyLevels`): beginner 8x8 with 10 mines,
      intermediate 16x16 with 40, expert 30x16 with 99. */
  function DifficultyLevels(): (levels: seq<DifficultyLevel>)
    ensures |levels| == 3
    ensures forall i :: 0 <= i < |levels| ==> levels[i].level == i + 1 && Playable(levels[i])
  {
    [ DifficultyLevel(1, 8, 8, 10),
      DifficultyLevel(2, 16, 16, 40),
      DifficultyLevel(3, 30, 16, 99) ]
  }
}
