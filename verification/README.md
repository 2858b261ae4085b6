# Spiral Sudoku: the generation and validation engine in Dafny

Spiral Sudoku is a Sudoku variant. Besides the usual rules, that no digit
repeats in a row, a column or a 3×3 box, the board carries disjoint "spirals".
A spiral is a chain of 4 to 9 king-move-adjacent cells, and no digit repeats
within it either. This project models the engine behind the game and proves
properties of it:

- the constraint checks;
- the randomized backtracking generator of solved grids;
- the depth-first spiral search and the loop that commits spirals;
- the puzzle carver;
- the completed-unit and conflict reports;
- the win check;
- the game-state transitions: new game, edit, clear, clear all, clicks and
  key presses;
- the derived hints: the spiral tracker and the number pad.

There is one module per source file. Three shared modules sit underneath:

- `Wrappers`: `Option`.
- `Seqs`: distinctness, counting, first-occurrence deduplication
  (`[...new Set(xs)]`) and filtering.
- `Board`: cells, 9×9 grids as `seq<seq<int>>`, spirals, and cell sets.

Modelling choices:

- **Randomness.** Every `Math.random` draw becomes an arbitrary choice (`:|`)
  inside the method. Each contract therefore holds for every random outcome.
- **Mutation.** Mutating JavaScript functions become methods that return the
  new value.
- **React hooks.** The hook state becomes the `Game` record and the `Page`
  record, and each handler becomes a function or method from the old record
  to the new one.
- **Grid keys.** The source's `"row,col"` string keys become `Cell` values.
- **Spiral format.** Spirals use the `{cells, solutionNumbers}` format.
  `solutionNumbers` is optional, so the tracker's fallback branch, taken when
  the field is missing, can be reached.
- **Loop-based operations.** Operations that the source writes as loops are
  methods. Their contracts are stated against a declarative reference
  definition: `Conflicts`, `IsCompletionReport`, `Placeable`, `Available`,
  `Dedup` and `Without`. These definitions are then related to the game's
  rules by lemmas:
  - no conflicts exactly when no unit repeats a digit;
  - a won grid is the solution;
  - a generated spiral is never reported stuck.

## Model

| member | source | states |
|---|---|---|
| Constants.DirectionsAreKingMoves | src/constants/index.js:50-59 | The direction list has 8 distinct offsets, exactly the non-zero moves by at most one row and one column. |
| Constants.ConfigurationConsistent | src/constants/index.js:16-22 | Spiral sizes satisfy 0 < 4 ≤ 9 ≤ grid size, the grid size is the box size squared, and the attempt bound is 1000. |
| Constants.LevelsWellFormed | src/constants/index.js:25-47 | Every known difficulty level has 0 ≤ minCells ≤ maxCells ≤ 81. |
| Board.Update | src/pages/GamePage.jsx:37-38 | Writing a value into one cell of a copied grid changes that cell and no other. |
| Board.ZeroAndNonZeroPartition | src/pages/GamePage.jsx:80 | Empty and filled cells split the 81 cells, so their counts add up to 81. |
| Board.CountPrefixStep | src/components/NumberPad.jsx:14-22 | Extending a prefix by one entry raises the count by one exactly when that entry is the value. |
| Board.CountFlattenIsCells | src/components/NumberPad.jsx:14-22 | The occurrences of a value in the flattened grid are exactly the cells holding it. |
| Validators.BoxNumber | src/utils/validators.js:32-35 | An in-grid cell gets a box number in 0..8. |
| Validators.BoxGeometry | src/utils/validators.js:32-35 | Two in-grid cells get the same box number exactly when they lie in the same 3×3 block. |
| Validators.IsValid | src/utils/validators.js:6-27 | The digit is accepted exactly when it appears in neither the cell's row, nor its column, nor its box. A cell that already holds the digit rejects it. |
| Validators.PlacementKeepsConsistent | src/utils/sudokuGenerator.js:14-16 | Placing a digit that the validity check accepts keeps every row, column and box free of repeats. |
| Validators.NotBlockedAt | src/utils/validators.js:6-27 | An accepted digit differs from the value of every cell sharing a unit with the target. |
| Validators.IsSpiralValidIffRules | src/utils/validators.js:40-93 | The spiral check holds exactly when the cells span several boxes, rows and columns, no box, row or column holds more than ⌈size/2⌉+1 of them, and their grid values are distinct. |
| Validators.SingleUnitRejected | src/utils/validators.js:55-62 | A non-empty cell list inside one box, one row or one column is rejected. |
| Validators.CrowdedUnitRejected | src/utils/validators.js:66-86 | A list with more than ⌈size/2⌉+1 cells in some box, row or column is rejected. |
| Validators.RepeatedDigitRejected | src/utils/validators.js:88-93 | A list whose cells hold a repeated grid value is rejected. |
| Validators.CrowdedIffCount | src/utils/validators.js:66-86 | A crowded box, row or column is exactly a key that occurs more than the limit allows. |
| Validators.SingleKeyIffConstant | src/utils/validators.js:55-62 | A key list has a single distinct value exactly when it does not span two values. |
| Validators.MaxCellsPerUnit | src/utils/validators.js:66 | The per-unit limit is ⌈size/2⌉+1. |
| Validators.Shuffle | src/utils/validators.js:99-106 | The shuffle returns a permutation of its input. |
| SudokuGenerator.FindEmpty | src/utils/sudokuGenerator.js:8-10 | Finds the first empty cell in row-major order, or none exactly when the grid is full. |
| SudokuGenerator.ShuffledDigits | src/utils/sudokuGenerator.js:11-12 | Any reordering of the digit list holds only digits 1..9. |
| SudokuGenerator.TryDigits | src/utils/sudokuGenerator.js:14-25 | On success the grid is full and the cell holds a digit from the list that the validity check accepted. On failure the grid is handed back unchanged. Only empty cells change, and a grid with no repeats keeps none. |
| SudokuGenerator.PlaceAndSolve | src/utils/sudokuGenerator.js:15-22 | Writing a digit and solving the rest either fills the grid with that digit kept in the cell, changing only empty cells, or writes 0 back so the grid is the one passed in. An accepted digit keeps a grid without repeats free of them. |
| SudokuGenerator.Solve | src/utils/sudokuGenerator.js:7-30 | On success the grid is full. On failure the grid is the one passed in. Only empty cells change, each to a digit 1..9. A grid with no repeats keeps none. |
| SudokuGenerator.GenerateSolvedSudoku | src/utils/sudokuGenerator.js:35-42 | Starting from the all-zero grid, the result is a 9×9 grid that is either a full grid with no repeats or still all zero. |
| SudokuGenerator.SolutionUnitsArePermutations | src/utils/sudokuGenerator.js:14-16 | In a solved grid every row, column and box holds each digit 1..9 exactly once and passes the completion check. |
| SudokuGenerator.UnitOfSolutionIsPermutation | src/utils/sudokuGenerator.js:14-16 | Any 9 distinct cells that pairwise share a unit hold the digits 1..9 once each in a solved grid. |
| SpiralGenerator.PathLength | src/utils/spiralGenerator.js:32-33 | A path without repeated cells has at most 81 cells, which bounds the search depth. |
| SpiralGenerator.ExtendPath | src/utils/spiralGenerator.js:22-36 | Stepping in one of the eight directions to a free, unvisited, in-grid cell extends a path to a longer path. |
| SpiralGenerator.AtTargetSize | src/utils/spiralGenerator.js:13-14 | At the target length, the only completion is the path itself, and only when it is accepted. |
| SpiralGenerator.StepOfCompletion | src/utils/spiralGenerator.js:22-45 | Every completion of a short path passes through one neighbouring step of it. |
| SpiralGenerator.CompletionsStepToNeighbour | src/utils/spiralGenerator.js:20-47 | Trying all eight directions in any shuffled order covers every completion. |
| SpiralGenerator.FindPath | src/utils/spiralGenerator.js:12-48 | A found result completes the path to an accepted spiral of the target size. No result means that no completion exists and the path is restored. |
| SpiralGenerator.TryDirections | src/utils/spiralGenerator.js:20-47 | Either some direction yields a completion, or the path is unchanged and every completion through any of the tried neighbours is ruled out. |
| SpiralGenerator.TryDirection | src/utils/spiralGenerator.js:23-43 | One direction either yields a completion or leaves the path unchanged with every completion through that neighbour ruled out. |
| SpiralGenerator.FindSpiral | src/utils/spiralGenerator.js:7-54 | Returns a completion from the start cell, and returns none exactly when no completion exists. |
| SpiralGenerator.SpiralShape | src/utils/spiralGenerator.js:9-33 | A found spiral starts at the start cell and has the target size. Its steps are king moves, its cells are distinct and in the grid, and it passes the spiral check. The cells after the start are unclaimed; the start is not checked, and the caller picks an unclaimed one. |
| SpiralGenerator.CoveredMembership | src/utils/spiralGenerator.js:101-103 | A cell is claimed exactly when some committed spiral contains it. |
| SpiralGenerator.CoveredCardinality | src/utils/spiralGenerator.js:104 | For disjoint spirals with distinct cells, the running total equals the number of claimed cells. |
| SpiralGenerator.AllCovered | src/utils/spiralGenerator.js:86 | When no start cell is left, the spirals cover the whole grid. |
| SpiralGenerator.AvailableStarts | src/utils/spiralGenerator.js:77-84 | The start list holds exactly the in-grid cells that are not yet claimed. |
| SpiralGenerator.GenerateSpirals | src/utils/spiralGenerator.js:62-109 | Committed spirals are well formed, pairwise disjoint, and carry the grid's digits as solution numbers. The total never exceeds maxCells. At most 1000 attempts are made. The result may fall short of minCells only when the attempts run out or the grid is covered. |
| SpiralGenerator.CommitKeepsDisjoint | src/utils/spiralGenerator.js:94-104 | Committing a spiral of unclaimed cells keeps the spirals disjoint, adds its cells to the claimed set and its length to the total. |
| SpiralGenerator.CommitSpiral | src/utils/spiralGenerator.js:92-104 | A spiral found from an unclaimed start is a well-formed committed spiral whose solution numbers are the grid values at its cells. |
| SpiralGenerator.CreateCellToSpiralMapping | src/utils/spiralGenerator.js:114-123 | The index is defined exactly on claimed cells. Each maps to the last spiral holding it. For disjoint spirals, every cell of spiral idx maps to idx. |
| PuzzleUtils.RowCells | src/utils/puzzleUtils.js:74-80 | A row's list holds the 9 distinct cells of that row, in column order. |
| PuzzleUtils.ColumnCells | src/utils/puzzleUtils.js:85-91 | A column's list holds the 9 distinct cells of that column, in row order. |
| PuzzleUtils.BoxCells | src/utils/puzzleUtils.js:96-107 | A box's list holds 9 distinct in-grid cells, exactly those whose box number is the box. |
| PuzzleUtils.BoxCorner | src/utils/puzzleUtils.js:97-99 | The cells of box b are the 3×3 block at row 3·(b/3) and column 3·(b%3). |
| PuzzleUtils.AllUnits | src/utils/puzzleUtils.js:155-222 | There are 27 standard units plus one per spiral, and when the spirals lie inside the grid so does every scanned cell. |
| PuzzleUtils.UnitOfScan | src/utils/puzzleUtils.js:158-222 | The scan visits the 9 rows, then the 9 columns, then the 9 boxes, then the spirals in their order. |
| PuzzleUtils.SharedScanUnit | src/utils/puzzleUtils.js:158-222 | Two cells sharing a row, column, box or spiral both lie in one scanned unit. |
| PuzzleUtils.CommonUnit | src/utils/puzzleUtils.js:158-222 | Two different cells sharing a unit sit at two different positions of one scanned unit. |
| PuzzleUtils.CheckConstraint | src/utils/puzzleUtils.js:60-69 | A unit is complete exactly when none of its cells is empty and its values are distinct. |
| PuzzleUtils.CompletedUnits | src/utils/puzzleUtils.js:112-150 | Lists, in ascending order, exactly the indices of the units that pass the completion check. |
| PuzzleUtils.FindCompletedConstraints | src/utils/puzzleUtils.js:112-150 | Each of the four lists holds, in ascending order, exactly the rows, columns, boxes or spirals that are complete. |
| PuzzleUtils.ScanUnit | src/utils/puzzleUtils.js:158-222 | Scanning one unit adds exactly the cells whose non-zero value repeats elsewhere in that unit. |
| PuzzleUtils.FindConflictingCells | src/utils/puzzleUtils.js:155-225 | The result is exactly the set of cells whose non-zero value repeats within one of their rows, columns, boxes or spirals. |
| PuzzleUtils.ConflictsInMembership | src/utils/puzzleUtils.js:155-225 | A cell is in conflict exactly when some unit lists it at a position whose value repeats in that unit. |
| PuzzleUtils.ConflictSymmetry | src/utils/puzzleUtils.js:158-222 | Two distinct cells sharing a unit with the same non-zero value are both in conflict. |
| PuzzleUtils.ConflictWitness | src/utils/puzzleUtils.js:155-225 | Every conflicting cell is non-empty and shares a unit with another cell holding the same value. |
| PuzzleUtils.ConflictBreaksConsistency | src/utils/puzzleUtils.js:155-225 | Any conflict means some row, column, box or spiral repeats a digit. |
| PuzzleUtils.SpiralRepeatConflicts | src/utils/puzzleUtils.js:208-222 | A repeated non-zero value inside a spiral puts its cell in conflict. |
| PuzzleUtils.NoConflictsIffConsistent | src/utils/puzzleUtils.js:155-225 | The conflict set is empty exactly when no row, column, box or spiral repeats a non-zero digit. |
| PuzzleUtils.RemovalRange | src/utils/puzzleUtils.js:12-19 | The removal range spans 11 counts and lies within 1..80. |
| PuzzleUtils.RemovalRangeByKey | src/utils/puzzleUtils.js:12-19 | EASY removes 30-40 cells, MEDIUM 40-50 and HARD 50-60. Any other key falls back to the EASY range. |
| PuzzleUtils.CreatePlayablePuzzle | src/utils/puzzleUtils.js:10-55 | Empties a set of in-grid cells whose size lies in the difficulty's range. Every other cell keeps the solved value, and the solution returned is the solved grid. |
| GameValidation.CompareWithSolution | src/hooks/useGameValidation.js:26-36 | The filled flag holds exactly when no cell is 0. The correct flag holds exactly when every filled cell agrees with the solution. |
| GameValidation.ValidateGrid | src/hooks/useGameValidation.js:16-45 | Stores exactly the conflict set and completion report of the new grid. Completion becomes set when the grid is won, and is never cleared. |
| GameValidation.ResetValidation | src/hooks/useGameValidation.js:47-50 | The reset state has four empty completion lists and no conflicts. |
| GameValidation.ResetIsValidationOfEmptyGrid | src/hooks/useGameValidation.js:47-50 | The reset state is exactly what validating an empty grid would store. |
| GameValidation.SolutionWins | src/hooks/useGameValidation.js:26-39 | Entering the solution wins when no spiral repeats a solution digit. |
| GameValidation.WonMeansSolved | src/hooks/useGameValidation.js:26-39 | A won grid equals the solution, is full, and repeats no digit in any row, column, box or spiral. |
| GameState.GivenCells | src/hooks/useGameState.js:34-41 | The given cells are exactly the puzzle's non-zero cells. |
| GameState.GenerateNewPuzzle | src/hooks/useGameState.js:22-54 | A new game satisfies the game invariant. The user grid is the puzzle, nothing is selected and the game is not complete. Spirals cover at most the level's maxCells, and fewer than its minCells only when the 1000 attempts ran out or every cell is claimed. With a solved grid, the number of empty cells lies in the removal range. |
| GameState.DrawSpirals | src/hooks/useGameState.js:27 | Spirals drawn for a level are well formed, disjoint and cover at most its maxCells. They cover fewer than its minCells only when the 1000 attempts ran out or every cell is claimed. |
| GameState.IndexSpirals | src/hooks/useGameState.js:28 | For disjoint spirals, every index entry points to a spiral containing that cell, and every spiral cell is indexed to its own spiral. |
| GameState.GeneratedSetup | src/hooks/useGameState.js:25-48 | The generated pieces form a valid setup: given cells are the puzzle's filled cells and agree with the solution. |
| GameState.CarvedZeroCells | src/utils/puzzleUtils.js:38-49 | Carving a full grid leaves exactly the removed cells empty. |
| GameState.HandleClearAll | src/hooks/useGameState.js:60-64 | The user grid returns to the puzzle, the selection is dropped and completion is cleared. Nothing else changes, and the game invariant is kept. |
| GameState.ClearAllIdempotent | src/hooks/useGameState.js:60-64 | Clearing twice equals clearing once, and a fresh game is unchanged by clearing. |
| GamePage.EditSelected | src/pages/GamePage.jsx:33-39 | With no selection nothing changes. Otherwise the selected cell takes the value, every other cell keeps its value, and the rest of the game is untouched. There is no guard for given cells. |
| GamePage.HandleNumberInput | src/pages/GamePage.jsx:33-42 | The selected cell takes the digit, then validation reruns on the new grid and completion can only turn on. With no selection the page is unchanged. |
| GamePage.HandleClear | src/pages/GamePage.jsx:44-53 | The selected cell becomes empty, then validation reruns on the new grid. With no selection the page is unchanged. |
| GamePage.HandleClearAllWithValidation | src/pages/GamePage.jsx:55-58 | The grid returns to the puzzle, nothing is selected, completion is off, and there are no completed units and no conflicts. |
| GamePage.HandleNewGame | src/pages/GamePage.jsx:104-139 | The New Game and difficulty buttons start a valid fresh game at the chosen level, with nothing selected and not complete. The validation state is left as it was, so the previous game's conflicts and completed units stay shown until the next edit. |
| GamePage.ClearUndoesInput | src/pages/GamePage.jsx:33-53 | Entering a digit into an empty cell and clearing it restores the game. |
| GamePage.SecondEditWins | src/pages/GamePage.jsx:33-53 | Of two edits to the selected cell, only the second one counts. |
| GamePage.NonZeroCountComplement | src/pages/GamePage.jsx:80 | Non-zero and zero entries together account for the whole list. |
| GamePage.FilledCells | src/pages/GamePage.jsx:80 | The filled-cell counter is the number of non-empty cells, at most 81. |
| GameControls.HandleCellClick | src/hooks/useGameControls.js:13-15 | The selection becomes exactly the clicked cell, nothing else changes, and the game invariant holds for an in-grid click. |
| GameControls.KeyAction | src/hooks/useGameControls.js:18-19 | With nothing selected, every key is ignored. |
| GameControls.DigitKeyIff | src/hooks/useGameControls.js:21 | The string comparison admits exactly the keys starting with '1' through '8', and the key "9". |
| GameControls.DigitKeysEnterTheirDigit | src/hooks/useGameControls.js:21-22 | Keys '1'..'9' enter their own digit, and any key that enters a number enters a positive one. |
| GameControls.OneDigitKey | src/hooks/useGameControls.js:21-22 | The one-character key for digit n enters n. |
| GameControls.DigitKeyValue | src/hooks/useGameControls.js:21-22 | A key that passes the digit test is parsed to a positive number. |
| GameControls.LeadingValueAtLeast | src/hooks/useGameControls.js:22 | Parsing more leading digits never lowers the value. |
| GameControls.ClearKeys | src/hooks/useGameControls.js:23-24 | Backspace, Delete and '0' clear the selected cell. |
| GameControls.ArrowsStayInGrid | src/hooks/useGameControls.js:25-36 | An arrow moves the selection one step in its own direction, clamped to the grid. Up and down change only the row, left and right only the column. |
| GameControls.HandleKeyPress | src/hooks/useGameControls.js:18-38 | Dispatches to digit entry, clear, clamped move or nothing, as the key says, and keeps the game invariant. With no selection nothing changes. |
| SpiralTracker.CanPlaceNumber | src/components/SpiralTracker.jsx:10-36 | A digit may be placed exactly when it is absent from the cell's row, column, box and spiral. |
| SpiralTracker.EmptyCells | src/components/SpiralTracker.jsx:52-58 | The empty-cell list holds exactly the spiral cells holding 0. |
| SpiralTracker.EmptyCellsCount | src/components/SpiralTracker.jsx:52-59 | The empty-cell count is the number of zeros among the spiral's values. |
| SpiralTracker.Scan | src/components/SpiralTracker.jsx:48-59 | The scan yields the set of non-zero digits present in the spiral and its list of empty cells. |
| SpiralTracker.Unique | src/components/SpiralTracker.jsx:68 | Deduplicating the solution numbers keeps the first occurrence of each value. |
| SpiralTracker.KeepMissing | src/components/SpiralTracker.jsx:69 | Filtering keeps exactly the listed values not present in the spiral, in order. |
| SpiralTracker.SomeCellTakes | src/components/SpiralTracker.jsx:84 | Some empty cell can take the digit exactly when the digit is placeable in the spiral. |
| SpiralTracker.PlaceableDigits | src/components/SpiralTracker.jsx:79-94 | The fallback lists, in ascending order, exactly the digits 1..9 that are absent from the spiral and placeable in one of its empty cells. |
| SpiralTracker.GetSpiralRemainingNumbers | src/components/SpiralTracker.jsx:39-95 | An out-of-range index gives nothing, and a spiral with no empty cell gives no digits. Otherwise the result is the distinct solution digits not yet present, or the ascending fallback list when the solution numbers are missing. The empty count is always the number of empty cells. |
| SpiralTracker.SolutionDigitMissing | src/components/SpiralTracker.jsx:67-75 | A spiral with an empty cell always misses one of its distinct solution digits. |
| SpiralTracker.CommittedSolutionDigits | src/utils/spiralGenerator.js:94-100 | A committed spiral carries distinct solution numbers, one per cell. |
| SpiralTracker.SpiralProgress | src/components/SpiralTracker.jsx:108-115 | The filled count is the size less the empty cells, and the spiral is complete exactly when no cell is empty. It is reported stuck exactly when it has an empty cell and no remaining digit. With distinct solution numbers it is never stuck. |
| SpiralTracker.CommittedSpiralProgress | src/components/SpiralTracker.jsx:108-115 | A spiral produced by the generator is never reported stuck, whatever the user has entered. |
| NumberPad.Available | src/components/NumberPad.jsx:8-26 | A digit's remaining count lies in 0..9. |
| NumberPad.CalculateAvailability | src/components/NumberPad.jsx:8-26 | The counts are defined exactly for 1..9. Each count is nine less the cells holding that digit, clamped at zero, and nine when there is no grid. |
| NumberPad.AvailableFromFlat | src/components/NumberPad.jsx:14-22 | The remaining count equals nine less the digit's occurrences in the flattened grid, clamped at zero. |
| NumberPad.DigitDisabledIff | src/components/NumberPad.jsx:36-44 | Digit button n is disabled exactly when nothing is selected or at least nine cells hold n. |
| NumberPad.NoGridNothingUsedUp | src/components/NumberPad.jsx:14 | Before a game exists, a digit button is disabled exactly when the Clear button is, that is, when nothing is selected. |

## Left out

- Rendering: JSX and styling in every component are presentation only. This covers the grid highlight classes, colour bands, the legend, the rules, the difficulty selector, the statistics and `SPIRAL_COLORS`.
- React plumbing is replaced by the `Game` and `Page` records and pure transitions:
  - the `useState` setters;
  - `useEffect`;
  - the `setTimeout` deferral of a new game;
  - the congratulation `alert`;
  - keyboard-listener registration and `preventDefault`.
- The loading flag and the state before the first game exists. They are not part of `Game`. The number pad's missing grid is kept as `None`.
- `handleDifficultyChange` and the default argument of `generateNewPuzzle` are not separate members. `GamePage.HandleNewGame` takes the key explicitly: the New Game button passes the current difficulty and a difficulty button its own key.
- `Math.random` itself. Every draw is an arbitrary choice, so the contracts cover all outcomes. They say nothing about the distribution.
- SudokuGenerator.Solve: its contract does not claim that the search succeeds or terminates within any bound. Filling an empty grid always succeeds, but that is not proved here. Termination is shown on the number of empty cells.
- SudokuGenerator.GenerateSolvedSudoku: stated weaker than the source's intent. The result is a solved grid or still the empty grid, because success of the search is not proved.
- GameState.GenerateNewPuzzle: requires one of the three difficulty keys. Every caller passes one of them. For an unknown key the source reads `minCells` from `undefined` and throws. For a key inherited from JavaScript objects, such as `"constructor"`, the lookup returns a function instead: `generateSpirals` then falls back to its default range of 30 to 50 cells, and the carver gets an undefined `min` and `max`, so `removeCount` is `NaN` and all 81 cells are emptied. Neither path is modelled. The removal-count bound is stated only when the generated grid is solved, for the reason given for GenerateSolvedSudoku.
- Unique solvability of the carved puzzle is not claimed. The carver does not check it.
- SpiralGenerator.GenerateSpirals: reaching `minCells` is not promised. The source may return fewer cells once the attempts run out, and the contract says exactly that.
- The spiral search's `visited` set is the set of cells on the current path, so it is modelled as membership in the path.
- SpiralGenerator.FindPath: the acceptance test (`isSpiralValid` on the grid) is passed in as a function. `SpiralAccept` supplies the spiral check on in-grid cells, and `SpiralShape` states what an accepted path satisfies.
- Spirals in the legacy bare-array format (`spiralData.cells || spiralData`) are not modelled. Neither is the same fallback in `createCellToSpiralMapping`.
- Cell keys of the form `"row,col"` are `Cell` values. The conflict scan remembers a value's first position in the unit instead of its key, which identifies the same cell.
- The `cellToSpiral` argument of `validateGrid`, `findConflictingCells` and the tracker is never read by the source and is dropped.
- SpiralTracker.GetSpiralRemainingNumbers: the result's `canPlace` field is always the same list as `remaining` and is not repeated.
- SpiralTracker.CanPlaceNumber: reuses `Validators.IsValid` for the row, column and box scans. The source repeats the three loops inline and they compute the same thing.
- NumberPad.CalculateAvailability: a cell value outside 1..9 has no effect. In the source it would create a `NaN` entry under that key, and grids built by the game never hold such values.
- PuzzleUtils.BoxCells: requires a box index in 0..8. The source is only called with those.
- PuzzleUtils.RemovalRange: keys naming inherited JavaScript object properties (such as `"constructor"`) are treated like any other unknown key.
- Keyboard input: a key is any string, compared with JavaScript's string order and read with `parseInt`, so a key like "12" would enter 12. Browsers send no such multi-character keys.
