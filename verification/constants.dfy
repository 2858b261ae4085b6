/** Puzzle configuration, difficulty levels and the eight spiral-search
    directions (src/constants/index.js). */
module Constants {
  import opened Wrappers
  import opened Seqs

  const MinSpiralSize: int := 4
  const MaxSpiralSize: int := 9
  const GridSize: int := 9
  const BoxSize: int := 3
  const MaxGenerationAttempts: int := 1000

  /** A difficulty level: a display name and the range of cells the spirals of
      a puzzle should cover. Colour and description strings are presentation. */
  datatype Level = Level(name: string, minCells: int, maxCells: int)

  /** `DIFFICULTY_LEVELS[key]`: `None` is JavaScript's `undefined` for an
      unknown key. */
  function DifficultyLevel(key: string): Option<Level> {
    if key == "EASY" then Some(Level("Easy", 30, 50))
    else if key == "MEDIUM" then Some(Level("Medium", 50, 60))
    else if key == "HARD" then Some(Level("Hard", 60, 70))
    else None
  }

  /** Row and column offsets to the eight neighbours of a cell, in the order
      the source lists them. */
  const Directions: seq<(int, int)> :=
    [(0, 1), (1, 0), (0, -1), (-1, 0), (1, 1), (1, -1), (-1, 1), (-1, -1)]

  /** The directions are exactly the eight king moves, each listed once. */
  lemma DirectionsAreKingMoves()
    ensures |Directions| == 8 && Distinct(Directions)
    ensures forall d :: d in Directions <==>
              -1 <= d.0 <= 1 && -1 <= d.1 <= 1 && d != (0, 0)
  {
  }

  /** Spiral sizes fit in a line of the grid and the grid is a square of boxes. */
  lemma ConfigurationConsistent()
    ensures 0 < MinSpiralSize <= MaxSpiralSize <= GridSize
    ensures GridSize == BoxSize * BoxSize
    ensures MaxGenerationAttempts == 1000
  {
  }

  /** Every level asks for a cell range that fits in the 81-cell grid. */
  lemma LevelsWellFormed(key: string)
    requires DifficultyLevel(key).Some?
    ensures 0 <= DifficultyLevel(key).value.minCells
    ensures DifficultyLevel(key).value.minCells <= DifficultyLevel(key).value.maxCells
    ensures DifficultyLevel(key).value.maxCells <= GridSize * GridSize
  {
  }
}
