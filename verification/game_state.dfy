/** The game record and its transitions that do not involve validation
    (src/hooks/useGameState.js): starting a new game and clearing the
    user's entries. */
module GameState {
  import opened Wrappers
  import opened Seqs
  import opened Constants
  import opened Board
  import opened Validators
  import opened PuzzleUtils
  import opened SudokuGenerator
  import opened SpiralGenerator

  /** The hook's state once a game exists. The loading flag is left out. */
  datatype Game = Game(
    solution: Grid,
    puzzle: Grid,
    userGrid: Grid,
    givenCells: set<Cell>,
    spirals: seq<Spiral>,
    cellToSpiral: map<Cell, int>,
    difficulty: string,
    selectedCell: Option<Cell>,
    isComplete: bool)

  /** The index maps each spiral cell to its spiral and nothing else. */
  ghost predicate Indexed(spirals: seq<Spiral>, cellToSpiral: map<Cell, int>) {
    && (forall c :: c in cellToSpiral ==>
          0 <= cellToSpiral[c] < |spirals| && c in spirals[cellToSpiral[c]].cells)
    && (forall s, c :: 0 <= s < |spirals| && c in spirals[s].cells ==>
          c in cellToSpiral && cellToSpiral[c] == s)
  }

  /** What a generated game fixes for its whole life: well-shaped grids,
      given cells are the puzzle's filled cells and agree with the solution,
      the spirals are well formed and disjoint, and they are indexed. */
  ghost predicate Setup(solution: Grid, puzzle: Grid, givenCells: set<Cell>, spirals: seq<Spiral>, cellToSpiral: map<Cell, int>) {
    && IsGrid(solution) && IsGrid(puzzle)
    && givenCells == NonZeroCells(puzzle)
    && (forall c :: InBounds(c) && Get(puzzle, c) != 0 ==> Get(puzzle, c) == Get(solution, c))
    && AllSpiralsOk(spirals, solution) && PairwiseDisjoint(spirals)
    && Indexed(spirals, cellToSpiral)
  }

  /** What every game state satisfies: its setup, a well-shaped user grid
      and a selection inside the grid. */
  ghost predicate Valid(g: Game) {
    && Setup(g.solution, g.puzzle, g.givenCells, g.spirals, g.cellToSpiral)
    && IsGrid(g.userGrid)
    && (g.selectedCell.Some? ==> InBounds(g.selectedCell.value))
  }

  /** The given-cell loop of `generateNewPuzzle`. */
  method GivenCells(puzzle: Grid) returns (given: set<Cell>)
    requires IsGrid(puzzle)
    ensures given == NonZeroCells(puzzle)
  {
    given := {};
    var row := 0;
    while row < GridSize
      invariant 0 <= row <= GridSize
      invariant given == set c | c in NonZeroCells(puzzle) && c.row < row
    {
      var col := 0;
      while col < GridSize
        invariant 0 <= col <= GridSize
        invariant given == set c | c in NonZeroCells(puzzle) && RowMajorBefore(c, Cell(row, col))
      {
        if puzzle[row][col] != 0 {
          given := given + {Cell(row, col)};
        }
        col := col + 1;
      }
      row := row + 1;
    }
  }

  /** `generateNewPuzzle` for a difficulty key. The source looks the level up
      without a check; every caller passes one of the three levels, and that
      is what the model requires. The spirals are drawn with the level's cell
      range and the carver uses the same key. `attempts` is the spiral
      generator's attempt counter, returned so that the `minCells` shortfall
      can be stated. */
  method GenerateNewPuzzle(difficultyLevel: string) returns (game: Game, attempts: int)
    requires DifficultyLevel(difficultyLevel).Some?
    ensures Valid(game)
    ensures game.userGrid == game.puzzle && game.selectedCell.None? && !game.isComplete
    ensures game.difficulty == difficultyLevel
    ensures IsSolution(game.solution) || game.solution == EmptyGrid()
    ensures TotalCells(game.spirals) <= DifficultyLevel(difficultyLevel).value.maxCells || game.spirals == []
    ensures 0 <= attempts <= MaxGenerationAttempts
    ensures TotalCells(game.spirals) >= DifficultyLevel(difficultyLevel).value.minCells ||
            attempts == MaxGenerationAttempts || Covered(game.spirals) == AllCellsSet()
    ensures IsSolution(game.solution) ==>
              RemovalRange(difficultyLevel).min <= |ZeroCells(game.puzzle)| <= RemovalRange(difficultyLevel).max
  {
    var level := DifficultyLevel(difficultyLevel).value;
    var grid := GenerateSolvedSudoku();
    var newSpirals;
    newSpirals, attempts := DrawSpirals(grid, level.minCells, level.maxCells);
    var mapping := IndexSpirals(newSpirals);
    var carved, removed := CreatePlayablePuzzle(grid, difficultyLevel);
    var given := GivenCells(carved.puzzle);
    GeneratedSetup(grid, carved.puzzle, removed, given, newSpirals, mapping);
    game := Game(carved.solution, carved.puzzle, carved.puzzle, given, newSpirals, mapping,
                 difficultyLevel, None, false);
    if IsSolution(grid) {
      CarvedZeroCells(grid, carved.puzzle, removed);
    }
  }

  /** The spiral half of `generateNewPuzzle`: draw the spirals for a level's
      cell range. Fewer than `minCells` cells are covered only when the
      attempts ran out or no cell is left. */
  method DrawSpirals(grid: Grid, minCells: int, maxCells: int) returns (spirals: seq<Spiral>, attempts: int)
    requires IsGrid(grid)
    ensures AllSpiralsOk(spirals, grid) && PairwiseDisjoint(spirals)
    ensures TotalCells(spirals) <= maxCells || spirals == []
    ensures 0 <= attempts <= MaxGenerationAttempts
    ensures TotalCells(spirals) >= minCells || attempts == MaxGenerationAttempts ||
            Covered(spirals) == AllCellsSet()
  {
    spirals, attempts := GenerateSpirals(grid, minCells, maxCells);
  }

  /** `createCellToSpiralMapping` on disjoint spirals: every mapped cell
      lies in the spiral it maps to, and every spiral cell maps to its own
      spiral. */
  method IndexSpirals(spirals: seq<Spiral>) returns (mapping: map<Cell, int>)
    requires PairwiseDisjoint(spirals)
    ensures Indexed(spirals, mapping)
  {
    mapping := CreateCellToSpiralMapping(spirals);
  }

  /** The pieces `generateNewPuzzle` assembles form a setup: the carved
      puzzle agrees with the solved grid wherever it is filled. */
  lemma GeneratedSetup(grid: Grid, puzzle: Grid, removed: set<Cell>, given: set<Cell>,
                       spirals: seq<Spiral>, mapping: map<Cell, int>)
    requires IsGrid(grid) && IsGrid(puzzle)
    requires forall c :: InBounds(c) ==> Get(puzzle, c) == if c in removed then 0 else Get(grid, c)
    requires given == NonZeroCells(puzzle)
    requires AllSpiralsOk(spirals, grid) && PairwiseDisjoint(spirals)
    requires Indexed(spirals, mapping)
    ensures Setup(grid, puzzle, given, spirals, mapping)
  {
  }

  /** Carving a full grid empties exactly the removed cells. */
  lemma CarvedZeroCells(grid: Grid, puzzle: Grid, removed: set<Cell>)
    requires IsGrid(grid) && IsGrid(puzzle) && IsFull(grid)
    requires removed <= AllCellsSet()
    requires forall c :: InBounds(c) ==> Get(puzzle, c) == if c in removed then 0 else Get(grid, c)
    ensures ZeroCells(puzzle) == removed
  {
    forall c | c in ZeroCells(puzzle) ensures c in removed {
      assert InBounds(c) && Get(puzzle, c) == 0;
    }
    forall c | c in removed ensures c in ZeroCells(puzzle) {
      assert c in AllCellsSet();
      assert InBounds(c) && Get(puzzle, c) == 0;
    }
  }

  /** `handleClearAll`: the user grid goes back to the puzzle, the selection
      is dropped and completion is cleared. */
  function HandleClearAll(game: Game): (game': Game)
    ensures Valid(game) ==> Valid(game')
    ensures game'.userGrid == game.puzzle && game'.selectedCell.None? && !game'.isComplete
    ensures game'.(userGrid := game.userGrid, selectedCell := game.selectedCell, isComplete := game.isComplete) == game
  {
    game.(userGrid := game.puzzle, selectedCell := None, isComplete := false)
  }

  /** Clearing twice is clearing once, and clearing a fresh game leaves it
      as it was. */
  lemma ClearAllIdempotent(game: Game)
    ensures HandleClearAll(HandleClearAll(game)) == HandleClearAll(game)
    ensures game.userGrid == game.puzzle && game.selectedCell.None? && !game.isComplete ==>
              HandleClearAll(game) == game
  {
  }
}
