/** The solved-grid generator (src/utils/sudokuGenerator.js): randomized
    backtracking that fills the first empty cell with each digit `isValid`
    allows, in shuffled order, and undoes the placement when the rest of the
    grid cannot be filled. */
module SudokuGenerator {
  import opened Wrappers
  import opened Seqs
  import opened Constants
  import opened Board
  import opened Validators
  import opened PuzzleUtils

  /** The scan at the top of `solve`: the first empty cell in row-major order,
      or `None` when the grid is full. */
  method FindEmpty(grid: Grid) returns (cell: Option<Cell>)
    requires IsGrid(grid)
    ensures cell.None? <==> IsFull(grid)
    ensures cell.Some? ==> InBounds(cell.value) && Get(grid, cell.value) == 0
    ensures cell.Some? ==> forall d :: InBounds(d) && RowMajorBefore(d, cell.value) ==> Get(grid, d) != 0
  {
    var row := 0;
    while row < GridSize
      invariant 0 <= row <= GridSize
      invariant forall d :: InBounds(d) && d.row < row ==> Get(grid, d) != 0
    {
      var col := 0;
      while col < GridSize
        invariant 0 <= col <= GridSize
        invariant forall d :: InBounds(d) && RowMajorBefore(d, Cell(row, col)) ==> Get(grid, d) != 0
      {
        if grid[row][col] == 0 {
          return Some(Cell(row, col));
        }
        col := col + 1;
      }
      row := row + 1;
    }
    return None;
  }

  /** Only empty cells change, and each changes to a digit 1..9. */
  ghost predicate FillsOnlyEmpty(before: Grid, after: Grid)
    requires IsGrid(before) && IsGrid(after)
  {
    forall c :: InBounds(c) && Get(after, c) != Get(before, c) ==>
      Get(before, c) == 0 && 1 <= Get(after, c) <= 9
  }

  /** `solve`. The source mutates its argument; here the grid after the call is
      the second result. On success the grid is full; on failure every
      placement has been undone and the grid is the one passed in. Either way
      filled cells keep their values, and a grid with no repeated digit in any
      unit still has none, because each placed digit passed `isValid`. How far
      the search gets is not modelled: an empty grid can always be filled, but
      that is not proved here. */
  method Solve(grid: Grid) returns (solved: bool, result: Grid)
    requires IsGrid(grid)
    ensures IsGrid(result)
    ensures solved ==> IsFull(result)
    ensures !solved ==> result == grid
    ensures FillsOnlyEmpty(grid, result)
    ensures Consistent(grid) ==> Consistent(result)
    decreases |ZeroCells(grid)|, 2
  {
    var empty := FindEmpty(grid);
    if empty.None? {
      return true, grid;
    }
    var shuffledNumbers := Shuffle(DigitList);
    ShuffledDigits(shuffledNumbers);
    solved, result := TryDigits(grid, empty.value, shuffledNumbers);
  }

  /** Any ordering of the digits 1..9 holds only digits 1..9. */
  lemma ShuffledDigits(nums: seq<int>)
    requires multiset(nums) == multiset(DigitList)
    ensures forall k :: 0 <= k < |nums| ==> 1 <= nums[k] <= 9
  {
    assert forall i :: 0 <= i < |DigitList| ==> DigitList[i] == i + 1;
    forall k | 0 <= k < |nums| ensures 1 <= nums[k] <= 9 {
      assert nums[k] in multiset(nums);
      assert nums[k] in DigitList;
      var i :| 0 <= i < |DigitList| && DigitList[i] == nums[k];
    }
  }

  /** The loop of `solve` over the shuffled digits for one empty cell, tried
      in order. On success the cell holds one of the digits, one that
      `isValid` accepted; when no digit leads to a full grid the grid is
      handed back unchanged. */
  method TryDigits(grid: Grid, cell: Cell, nums: seq<int>) returns (solved: bool, result: Grid)
    requires IsGrid(grid) && InBounds(cell) && Get(grid, cell) == 0
    requires forall k :: 0 <= k < |nums| ==> 1 <= nums[k] <= 9
    ensures IsGrid(result)
    ensures solved ==> IsFull(result)
    ensures !solved ==> result == grid
    ensures FillsOnlyEmpty(grid, result)
    ensures Consistent(grid) ==> Consistent(result)
    ensures solved ==>
              exists k :: 0 <= k < |nums| && Get(result, cell) == nums[k] && !Blocked(grid, cell.row, cell.col, nums[k])
    decreases |ZeroCells(grid)|, 1
  {
    var i := 0;
    // A success returns from inside the loop, so reaching the end means
    // every digit failed and `grid` is untouched: no other invariant needed.
    while i < |nums|
      invariant 0 <= i <= |nums|
    {
      var ok := IsValid(grid, cell.row, cell.col, nums[i]);
      if ok {
        solved, result := PlaceAndSolve(grid, cell, nums[i]);
        if solved {
          return;
        }
      }
      i := i + 1;
    }
    return false, grid;
  }

  /** One digit of the loop in `solve`: write it into the empty cell, solve
      the rest, and on failure write 0 back. */
  method PlaceAndSolve(grid: Grid, cell: Cell, num: int) returns (solved: bool, result: Grid)
    requires IsGrid(grid) && InBounds(cell) && Get(grid, cell) == 0 && 1 <= num <= 9
    ensures IsGrid(result)
    ensures solved ==> IsFull(result)
    ensures !solved ==> result == grid
    ensures FillsOnlyEmpty(grid, result)
    ensures Consistent(grid) && !Blocked(grid, cell.row, cell.col, num) ==> Consistent(result)
    ensures solved ==> Get(result, cell) == num
    decreases |ZeroCells(grid)|, 0
  {
    if Consistent(grid) && !Blocked(grid, cell.row, cell.col, num) {
      PlacementKeepsConsistent(grid, cell, num);
    }
    FillShrinksZeroCells(grid, cell, num);
    var placed := Update(grid, cell, num);
    solved, result := Solve(placed);
    if solved {
      FillsAfterPlacement(grid, placed, result, cell);
    } else {
      result := Update(result, cell, 0);
      UpdateTwice(grid, cell, num, 0);
      UpdateSameValue(grid, cell);
    }
  }

  /** Writing a digit into an empty cell and then filling only empty cells
      fills only cells that were empty at the start. */
  lemma FillsAfterPlacement(grid: Grid, placed: Grid, result: Grid, cell: Cell)
    requires IsGrid(grid) && IsGrid(placed) && IsGrid(result) && InBounds(cell)
    requires Get(grid, cell) == 0 && 1 <= Get(placed, cell) <= 9
    requires forall d :: InBounds(d) && d != cell ==> Get(placed, d) == Get(grid, d)
    requires FillsOnlyEmpty(placed, result)
    ensures FillsOnlyEmpty(grid, result)
  {
  }

  /** `generateSolvedSudoku`: run the solver on the all-zero grid. The result
      is a solution, or the empty grid again if the search failed. */
  method GenerateSolvedSudoku() returns (grid: Grid)
    ensures IsGrid(grid)
    ensures IsSolution(grid) || grid == EmptyGrid()
  {
    grid := EmptyGrid();
    var solved;
    solved, grid := Solve(grid);
    assert DigitsOrEmpty(grid) by {
      forall r, c | 0 <= r < GridSize && 0 <= c < GridSize ensures 0 <= grid[r][c] <= 9 {
        assert Get(grid, Cell(r, c)) == grid[r][c];
      }
    }
  }

  /** Nine distinct cells of one row, column or box hold each digit exactly
      once in a solution. */
  lemma UnitOfSolutionIsPermutation(g: Grid, unit: seq<Cell>)
    requires IsSolution(g) && AllInBounds(unit) && |unit| == GridSize && Distinct(unit)
    requires forall i, j :: 0 <= i < |unit| && 0 <= j < |unit| ==> SameUnit(unit[i], unit[j])
    ensures Distinct(ValuesAt(g, unit))
    ensures SetOf(ValuesAt(g, unit)) == SetOf(DigitList)
  {
    var values := ValuesAt(g, unit);
    forall i, j | 0 <= i < j < |values| ensures values[i] != values[j] {
      assert SameUnit(unit[i], unit[j]);
      assert Get(g, unit[i]) != 0;
    }
    DigitListFacts();
    forall v | v in SetOf(values) ensures v in SetOf(DigitList) {
      var i :| 0 <= i < |values| && values[i] == v;
      assert Get(g, unit[i]) != 0;
      assert g[unit[i].row][unit[i].col] == v;
    }
    DistinctIffCardinality(values);
    SubsetEqualCardinality(SetOf(values), SetOf(DigitList));
  }

  /** In a solution every row, column and box is a permutation of 1..9, so
      every one of them passes the full-and-distinct check. */
  lemma SolutionUnitsArePermutations(g: Grid, k: int)
    requires IsSolution(g) && 0 <= k < GridSize
    ensures Distinct(ValuesAt(g, RowCells(k))) && SetOf(ValuesAt(g, RowCells(k))) == SetOf(DigitList)
    ensures Distinct(ValuesAt(g, ColumnCells(k))) && SetOf(ValuesAt(g, ColumnCells(k))) == SetOf(DigitList)
    ensures Distinct(ValuesAt(g, BoxCells(k))) && SetOf(ValuesAt(g, BoxCells(k))) == SetOf(DigitList)
    ensures CheckConstraint(g, RowCells(k)) && CheckConstraint(g, ColumnCells(k)) && CheckConstraint(g, BoxCells(k))
  {
    UnitOfSolutionIsPermutation(g, RowCells(k));
    UnitOfSolutionIsPermutation(g, ColumnCells(k));
    var box := BoxCells(k);
    forall i, j | 0 <= i < |box| && 0 <= j < |box| ensures SameUnit(box[i], box[j]) {
      assert box[i] in box && box[j] in box;
    }
    UnitOfSolutionIsPermutation(g, box);
  }
}
