/** The number pad (src/components/NumberPad.jsx): how many of each digit
    are still to be placed, and which buttons are disabled. */
module NumberPad {
  import opened Wrappers
  import opened Seqs
  import opened Constants
  import opened Board

  function Max0(x: int): int { if x < 0 then 0 else x }

  /** How many more copies of digit `n` the grid can take: nine less the
      cells already holding it, never below zero; nine when there is no grid
      yet. */
  function Available(userGrid: Option<Grid>, n: int): (a: int)
    requires userGrid.Some? ==> IsGrid(userGrid.value)
    ensures 0 <= a <= 9
  {
    match userGrid
    case None => 9
    case Some(g) => Max0(9 - |CellsHolding(g, n)|)
  }

  /** `counts` holds, for each digit, nine less the cells among the first
      `k` in row-major order that hold it, clamped at zero. */
  ghost predicate Tallied(g: Grid, counts: map<int, int>, k: int)
    requires IsGrid(g)
  {
    && (forall n :: n in counts <==> 1 <= n <= 9)
    && (forall n :: 1 <= n <= 9 ==> counts[n] == Max0(9 - |CellsHoldingBefore(g, n, k)|))
  }

  /** One cell of the scan: a digit takes one off its own count. */
  function Tally(counts: map<int, int>, value: int): map<int, int> {
    if value != 0 && 1 <= value <= 9 && value in counts then counts[value := Max0(counts[value] - 1)]
    else counts
  }

  lemma TallyStep(g: Grid, counts: map<int, int>, row: int, col: int)
    requires IsGrid(g) && 0 <= row < GridSize && 0 <= col < GridSize
    requires Tallied(g, counts, 9 * row + col)
    ensures Tallied(g, Tally(counts, g[row][col]), 9 * row + col + 1)
  {
    var k := 9 * row + col;
    assert k / 9 == row && k % 9 == col;
    forall n | 1 <= n <= 9
      ensures Tally(counts, g[row][col])[n] == Max0(9 - |CellsHoldingBefore(g, n, k + 1)|)
    {
      TallyEntry(g, counts, k, n);
    }
  }

  /** One digit's entry after tallying the cell at position `k`. */
  lemma TallyEntry(g: Grid, counts: map<int, int>, k: int, n: int)
    requires IsGrid(g) && 0 <= k < GridSize * GridSize && 1 <= n <= 9
    requires n in counts && counts[n] == Max0(9 - |CellsHoldingBefore(g, n, k)|)
    requires forall m :: m in counts <==> 1 <= m <= 9
    ensures Tally(counts, g[k / 9][k % 9])[n] == Max0(9 - |CellsHoldingBefore(g, n, k + 1)|)
  {
    CellsHoldingBeforeStep(g, n, k);
  }

  /** Every digit starts at nine. */
  method FullCounts() returns (counts: map<int, int>)
    ensures forall n :: n in counts <==> 1 <= n <= 9
    ensures forall n :: n in counts ==> counts[n] == 9
  {
    counts := map[];
    var num := 1;
    while num <= 9
      invariant 1 <= num <= 10
      invariant forall n :: n in counts <==> 1 <= n < num
      invariant forall n :: n in counts ==> counts[n] == 9
    {
      counts := counts[num := 9];
      num := num + 1;
    }
  }

  /** `calculateAvailability`: start every digit at nine and take one off,
      clamped at zero, for each cell holding it, scanning in row-major
      order. */
  method CalculateAvailability(userGrid: Option<Grid>) returns (counts: map<int, int>)
    requires userGrid.Some? ==> IsGrid(userGrid.value)
    ensures forall n :: n in counts <==> 1 <= n <= 9
    ensures forall n :: 1 <= n <= 9 ==> counts[n] == Available(userGrid, n)
  {
    counts := FullCounts();
    if userGrid.Some? {
      var g := userGrid.value;
      assert forall n :: CellsHoldingBefore(g, n, 0) == {};
      var row := 0;
      while row < GridSize
        invariant 0 <= row <= GridSize
        invariant Tallied(g, counts, 9 * row)
      {
        var col := 0;
        while col < GridSize
          invariant 0 <= col <= GridSize
          invariant Tallied(g, counts, 9 * row + col)
        {
          TallyStep(g, counts, row, col);
          var value := g[row][col];
          if value != 0 {
            counts := Tally(counts, value);
          }
          col := col + 1;
        }
        row := row + 1;
      }
      forall n | 1 <= n <= 9 ensures CellsHoldingBefore(g, n, 81) == CellsHolding(g, n) {
      }
    }
  }

  /** A digit button is disabled with no selection or when none of that
      digit is left to place. */
  function DigitDisabled(selected: Option<Cell>, remaining: int): bool {
    selected.None? || remaining == 0
  }

  /** The Clear button is disabled exactly when nothing is selected. */
  function ClearDisabled(selected: Option<Cell>): bool {
    selected.None?
  }

  /** With a grid, digit `n` is disabled exactly when nothing is selected or
      at least nine cells already hold it. */
  lemma DigitDisabledIff(selected: Option<Cell>, g: Grid, n: int)
    requires IsGrid(g)
    ensures DigitDisabled(selected, Available(Some(g), n)) <==>
              selected.None? || |CellsHolding(g, n)| >= 9
  {
  }

  /** The count seen by the pad is the count of the digit in the flattened
      grid, as `userGrid.flat()` would list it. */
  lemma AvailableFromFlat(g: Grid, n: int)
    requires IsGrid(g)
    ensures Available(Some(g), n) == Max0(9 - Count(Flatten(g), n))
  {
    CountFlattenIsCells(g, n);
  }

  /** Before a game exists no digit is disabled for want of copies. */
  lemma NoGridNothingUsedUp(selected: Option<Cell>, n: int)
    ensures DigitDisabled(selected, Available(None, n)) <==> ClearDisabled(selected)
  {
  }
}
