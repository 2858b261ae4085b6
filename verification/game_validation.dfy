/** The win check and the stored validation results
    (src/hooks/useGameValidation.js). */
module GameValidation {
  import opened Seqs
  import opened Constants
  import opened Board
  import opened Validators
  import opened PuzzleUtils

  /** The two pieces of state the hook keeps: the completion report and the
      conflict set. */
  datatype Validation = Validation(completed: Completion, conflicts: set<Cell>)

  /** `v` is what validating `grid` against `spirals` stores. */
  ghost predicate IsValidationOf(v: Validation, grid: Grid, spirals: seq<Spiral>)
    requires IsGrid(grid) && SpiralsInBounds(spirals)
  {
    v.conflicts == Conflicts(grid, spirals) && IsCompletionReport(grid, spirals, v.completed)
  }

  /** The puzzle is won: every cell is filled, every cell equals the
      solution, and no row, column, box or spiral repeats a digit. */
  ghost predicate Won(grid: Grid, solution: Grid, spirals: seq<Spiral>)
    requires IsGrid(grid) && IsGrid(solution) && SpiralsInBounds(spirals)
  {
    && (forall c :: InBounds(c) ==> Get(grid, c) != 0)
    && (forall c :: InBounds(c) ==> Get(grid, c) == Get(solution, c))
    && Conflicts(grid, spirals) == {}
  }

  /** The cell loop of `validateGrid`: whether every cell is filled, and
      whether every filled cell agrees with the solution. */
  method CompareWithSolution(grid: Grid, solution: Grid) returns (allFilled: bool, allCorrect: bool)
    requires IsGrid(grid) && IsGrid(solution)
    ensures allFilled <==> forall c :: InBounds(c) ==> Get(grid, c) != 0
    ensures allCorrect <==> forall c :: InBounds(c) && Get(grid, c) != 0 ==> Get(grid, c) == Get(solution, c)
  {
    allFilled := true;
    allCorrect := true;
    var row := 0;
    while row < GridSize
      invariant 0 <= row <= GridSize
      invariant allFilled <==> forall c :: InBounds(c) && c.row < row ==> Get(grid, c) != 0
      invariant allCorrect <==> forall c :: InBounds(c) && c.row < row && Get(grid, c) != 0 ==>
                                  Get(grid, c) == Get(solution, c)
    {
      var col := 0;
      while col < GridSize
        invariant 0 <= col <= GridSize
        invariant allFilled <==> forall c :: InBounds(c) && RowMajorBefore(c, Cell(row, col)) ==> Get(grid, c) != 0
        invariant allCorrect <==> forall c :: InBounds(c) && RowMajorBefore(c, Cell(row, col)) && Get(grid, c) != 0 ==>
                                    Get(grid, c) == Get(solution, c)
      {
        assert Get(grid, Cell(row, col)) == grid[row][col] && Get(solution, Cell(row, col)) == solution[row][col];
        assert forall c :: InBounds(c) ==>
                 (RowMajorBefore(c, Cell(row, col + 1)) <==> RowMajorBefore(c, Cell(row, col)) || c == Cell(row, col));
        if grid[row][col] == 0 {
          allFilled := false;
        } else if grid[row][col] != solution[row][col] {
          allCorrect := false;
        }
        col := col + 1;
      }
      assert forall c :: InBounds(c) ==> (RowMajorBefore(c, Cell(row, col)) <==> c.row < row + 1);
      row := row + 1;
    }
  }

  /** `validateGrid`. The completion flag is passed in and returned: it is
      set when the grid is won and otherwise left as it was. The
      cell-to-spiral index the source also receives is never read. */
  method ValidateGrid(grid: Grid, spirals: seq<Spiral>, solution: Grid, isComplete: bool)
    returns (validation: Validation, isComplete': bool)
    requires IsGrid(grid) && IsGrid(solution) && SpiralsInBounds(spirals)
    ensures IsValidationOf(validation, grid, spirals)
    ensures isComplete' <==> isComplete || Won(grid, solution, spirals)
  {
    var conflicts := FindConflictingCells(grid, spirals);
    var completed := FindCompletedConstraints(grid, spirals);
    validation := Validation(completed, conflicts);

    var allFilled, allCorrect := CompareWithSolution(grid, solution);
    if allFilled && allCorrect && |conflicts| == 0 {
      isComplete' := true;
    } else {
      isComplete' := isComplete;
    }
  }

  /** `resetValidation`: no completed unit and no conflict. */
  function ResetValidation(): (v: Validation)
    ensures |v.completed.rows| == |v.completed.columns| == |v.completed.boxes| == |v.completed.spirals| == 0
    ensures |v.conflicts| == 0
  {
    Validation(Completion([], [], [], []), {})
  }

  /** The reset state is exactly what validating the empty grid reports, for
      spirals that have cells. */
  lemma ResetIsValidationOfEmptyGrid(spirals: seq<Spiral>)
    requires SpiralsInBounds(spirals)
    requires forall s :: 0 <= s < |spirals| ==> |spirals[s].cells| > 0
    ensures IsValidationOf(ResetValidation(), EmptyGrid(), spirals)
  {
    var g := EmptyGrid();
    NoConflictsIffConsistent(g, spirals);
    forall s | 0 <= s < |spirals| ensures !CheckConstraint(g, spirals[s].cells) {
      assert Get(g, spirals[s].cells[0]) == 0;
    }
    forall k | 0 <= k < GridSize
      ensures !CheckConstraint(g, RowCells(k)) && !CheckConstraint(g, ColumnCells(k)) && !CheckConstraint(g, BoxCells(k))
    {
      assert Get(g, RowCells(k)[0]) == 0;
      assert Get(g, ColumnCells(k)[0]) == 0;
      assert Get(g, BoxCells(k)[0]) == 0;
    }
  }

  /** Entering the solution wins, provided no spiral repeats a digit of the
      solution (as `isSpiralValid` guarantees for generated spirals). */
  lemma SolutionWins(solution: Grid, spirals: seq<Spiral>)
    requires IsSolution(solution) && SpiralsInBounds(spirals)
    requires forall s :: 0 <= s < |spirals| ==> Distinct(ValuesAt(solution, spirals[s].cells))
    ensures Won(solution, solution, spirals)
  {
    forall s, i, j | 0 <= s < |spirals| && 0 <= i < |spirals[s].cells| && 0 <= j < |spirals[s].cells| && i != j
      ensures Get(solution, spirals[s].cells[i]) != Get(solution, spirals[s].cells[j])
    {
      var values := ValuesAt(solution, spirals[s].cells);
      if i < j {
        assert values[i] != values[j];
      } else {
        assert values[j] != values[i];
      }
    }
    NoConflictsIffConsistent(solution, spirals);
  }

  /** A won grid is the solution itself, and it repeats no digit in any row,
      column, box or spiral. */
  lemma WonMeansSolved(grid: Grid, solution: Grid, spirals: seq<Spiral>)
    requires IsGrid(grid) && IsGrid(solution) && SpiralsInBounds(spirals)
    requires Won(grid, solution, spirals)
    ensures grid == solution
    ensures IsFull(grid) && Consistent(grid) && SpiralsConsistent(grid, spirals)
  {
    forall r | 0 <= r < GridSize ensures grid[r] == solution[r] {
      forall c | 0 <= c < GridSize ensures grid[r][c] == solution[r][c] {
        assert Get(grid, Cell(r, c)) == Get(solution, Cell(r, c));
      }
    }
    NoConflictsIffConsistent(grid, spirals);
  }
}
