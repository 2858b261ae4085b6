/** The per-spiral hints (src/components/SpiralTracker.jsx): which digits a
    spiral still misses, how many of its cells are empty, and whether it is
    stuck, that is, has empty cells but no digit left to offer. */
module SpiralTracker {
  import opened Wrappers
  import opened Seqs
  import opened Constants
  import opened Board
  import opened Validators
  import opened SpiralGenerator

  /** What `getSpiralRemainingNumbers` returns. Its `canPlace` field is
      always the same list as `remaining` and is not repeated here. */
  datatype Remaining = Remaining(remaining: seq<int>, emptyCellsCount: int)

  /** What the tracker shows for one spiral. */
  datatype Progress = Progress(filledCount: int, isComplete: bool, hasConflict: bool)

  /** The cells of the list that hold 0, in list order. */
  function EmptyCells(grid: Grid, cells: seq<Cell>): (empty: seq<Cell>)
    requires IsGrid(grid) && AllInBounds(cells)
    ensures AllInBounds(empty) && |empty| <= |cells|
    ensures forall e :: e in empty ==> e in cells && Get(grid, e) == 0
    ensures forall i :: 0 <= i < |cells| && Get(grid, cells[i]) == 0 ==> cells[i] in empty
  {
    if |cells| == 0 then []
    else
      var front := cells[..|cells| - 1];
      var last := cells[|cells| - 1];
      assert forall i :: 0 <= i < |front| ==> cells[i] == front[i];
      EmptyCells(grid, front) + (if Get(grid, last) == 0 then [last] else [])
  }

  /** The non-zero digits the list's cells hold. */
  function Present(grid: Grid, cells: seq<Cell>): set<int>
    requires IsGrid(grid) && AllInBounds(cells)
  {
    SetOf(ValuesAt(grid, cells)) - {0}
  }

  /** `num` may go into the empty cell `e` of the spiral `cells`: it is in
      neither the cell's row, column and box nor the spiral. */
  ghost predicate PlaceableAt(grid: Grid, cells: seq<Cell>, e: Cell, num: int)
    requires IsGrid(grid) && AllInBounds(cells) && InBounds(e)
  {
    !Blocked(grid, e.row, e.col, num) && num !in ValuesAt(grid, cells)
  }

  /** `num` may go into some empty cell of the spiral. */
  ghost predicate Placeable(grid: Grid, cells: seq<Cell>, num: int)
    requires IsGrid(grid) && AllInBounds(cells)
  {
    exists i :: 0 <= i < |EmptyCells(grid, cells)| && PlaceableAt(grid, cells, EmptyCells(grid, cells)[i], num)
  }

  /** The number of positions of the list holding 0 is the number of empty
      cells found. */
  lemma {:induction false} EmptyCellsCount(grid: Grid, cells: seq<Cell>)
    requires IsGrid(grid) && AllInBounds(cells)
    ensures |EmptyCells(grid, cells)| == Count(ValuesAt(grid, cells), 0)
  {
    if |cells| > 0 {
      var front := cells[..|cells| - 1];
      EmptyCellsCount(grid, front);
      assert ValuesAt(grid, cells)[..|cells| - 1] == ValuesAt(grid, front);
    }
  }

  /** `canPlaceNumber`: the row, column and box scans are those of `isValid`,
      followed by a scan of the spiral's own cells. */
  method CanPlaceNumber(grid: Grid, row: int, col: int, num: int, spiral: seq<Cell>) returns (ok: bool)
    requires IsGrid(grid) && 0 <= row < GridSize && 0 <= col < GridSize && AllInBounds(spiral)
    ensures ok <==> !Blocked(grid, row, col, num) && num !in ValuesAt(grid, spiral)
  {
    ok := IsValid(grid, row, col, num);
    if !ok {
      return;
    }
    var i := 0;
    while i < |spiral|
      invariant 0 <= i <= |spiral|
      invariant forall j :: 0 <= j < i ==> Get(grid, spiral[j]) != num
    {
      if grid[spiral[i].row][spiral[i].col] == num {
        assert ValuesAt(grid, spiral)[i] == num;
        return false;
      }
      i := i + 1;
    }
    assert forall j :: 0 <= j < |spiral| ==> ValuesAt(grid, spiral)[j] != num;
  }

  /** Taking one more cell of the list into account. */
  lemma ScanStep(grid: Grid, cells: seq<Cell>, i: int)
    requires IsGrid(grid) && AllInBounds(cells) && 0 <= i < |cells|
    ensures var value := Get(grid, cells[i]);
            && Present(grid, cells[..i + 1]) == Present(grid, cells[..i]) + (if value != 0 then {value} else {})
            && EmptyCells(grid, cells[..i + 1]) == EmptyCells(grid, cells[..i]) + (if value == 0 then [cells[i]] else [])
  {
    var value := Get(grid, cells[i]);
    assert cells[..i + 1][..i] == cells[..i];
    assert ValuesAt(grid, cells[..i + 1]) == ValuesAt(grid, cells[..i]) + [value];
    SetOfSnoc(ValuesAt(grid, cells[..i]), value);
  }

  /** One pass over the spiral: the set of digits present and the list of
      empty cells. */
  method Scan(grid: Grid, cells: seq<Cell>) returns (present: set<int>, emptyCells: seq<Cell>)
    requires IsGrid(grid) && AllInBounds(cells)
    ensures present == Present(grid, cells)
    ensures emptyCells == EmptyCells(grid, cells)
  {
    present := {};
    emptyCells := [];
    var i := 0;
    while i < |cells|
      invariant 0 <= i <= |cells|
      invariant present == Present(grid, cells[..i])
      invariant emptyCells == EmptyCells(grid, cells[..i])
    {
      var value := grid[cells[i].row][cells[i].col];
      ScanStep(grid, cells, i);
      if value != 0 {
        present := present + {value};
      } else {
        emptyCells := emptyCells + [cells[i]];
      }
      i := i + 1;
    }
    assert cells[..i] == cells;
  }

  /** `[...new Set(numbers)]`, built in one pass. */
  method Unique(numbers: seq<int>) returns (unique: seq<int>)
    ensures unique == Dedup(numbers)
  {
    unique := [];
    var i := 0;
    while i < |numbers|
      invariant 0 <= i <= |numbers|
      invariant unique == Dedup(numbers[..i])
    {
      assert numbers[..i + 1][..i] == numbers[..i];
      assert numbers[i] in unique <==> numbers[i] in numbers[..i] by {
        assert numbers[i] in SetOf(unique) <==> numbers[i] in SetOf(numbers[..i]);
      }
      if numbers[i] !in unique {
        unique := unique + [numbers[i]];
      }
      i := i + 1;
    }
    assert numbers[..i] == numbers;
  }

  /** `unique.filter(num => !present.has(num))`. */
  method KeepMissing(unique: seq<int>, present: set<int>) returns (missing: seq<int>)
    ensures missing == Without(unique, present)
  {
    missing := [];
    var i := 0;
    while i < |unique|
      invariant 0 <= i <= |unique|
      invariant missing == Without(unique[..i], present)
    {
      assert unique[..i + 1][..i] == unique[..i];
      if unique[i] !in present {
        missing := missing + [unique[i]];
      }
      i := i + 1;
    }
    assert unique[..i] == unique;
  }

  /** `emptyCells.some(([row, col]) => canPlaceNumber(row, col, num, spiral))`. */
  method SomeCellTakes(grid: Grid, cells: seq<Cell>, emptyCells: seq<Cell>, num: int) returns (found: bool)
    requires IsGrid(grid) && AllInBounds(cells) && emptyCells == EmptyCells(grid, cells)
    ensures found <==> Placeable(grid, cells, num)
  {
    found := false;
    var k := 0;
    while k < |emptyCells|
      invariant 0 <= k <= |emptyCells|
      invariant !found
      invariant forall j :: 0 <= j < k ==> !PlaceableAt(grid, cells, emptyCells[j], num)
    {
      var e := emptyCells[k];
      var ok := CanPlaceNumber(grid, e.row, e.col, num, cells);
      if ok {
        assert PlaceableAt(grid, cells, emptyCells[k], num);
        return true;
      }
      k := k + 1;
    }
  }

  /** The fallback for spirals without solution digits: every digit 1..9
      that is absent from the spiral and fits in one of its empty cells, in
      ascending order. */
  method PlaceableDigits(grid: Grid, cells: seq<Cell>, present: set<int>, emptyCells: seq<Cell>)
    returns (digits: seq<int>)
    requires IsGrid(grid) && AllInBounds(cells)
    requires present == Present(grid, cells) && emptyCells == EmptyCells(grid, cells)
    ensures StrictlyAscending(digits)
    ensures forall n :: n in digits <==> 1 <= n <= 9 && n !in present && Placeable(grid, cells, n)
  {
    digits := [];
    var num := 1;
    while num <= 9
      invariant 1 <= num <= 10
      invariant StrictlyAscending(digits)
      invariant forall x :: x in digits ==> 1 <= x < num
      invariant forall n :: 1 <= n < num ==> (n in digits <==> n !in present && Placeable(grid, cells, n))
    {
      if num !in present {
        var canPlace := SomeCellTakes(grid, cells, emptyCells, num);
        if canPlace {
          AppendLarger(digits, num);
          digits := digits + [num];
        }
      }
      num := num + 1;
    }
  }

  /** Appending a value above every element keeps a list ascending and adds
      just that value. */
  lemma AppendLarger(digits: seq<int>, num: int)
    requires StrictlyAscending(digits)
    requires forall x :: x in digits ==> x < num
    ensures StrictlyAscending(digits + [num])
    ensures forall n :: n in digits + [num] <==> n in digits || n == num
  {
    assert forall i :: 0 <= i < |digits| ==> digits[i] in digits;
  }

  /** `getSpiralRemainingNumbers(spiralIndex)`. */
  method GetSpiralRemainingNumbers(grid: Grid, spirals: seq<Spiral>, spiralIndex: int) returns (r: Remaining)
    requires IsGrid(grid) && SpiralsInBounds(spirals)
    ensures !(0 <= spiralIndex < |spirals|) ==> r == Remaining([], 0)
    ensures 0 <= spiralIndex < |spirals| ==>
              var cells := spirals[spiralIndex].cells;
              var present := Present(grid, cells);
              && r.emptyCellsCount == |EmptyCells(grid, cells)|
              && (r.emptyCellsCount == 0 ==> r.remaining == [])
              && (r.emptyCellsCount > 0 && spirals[spiralIndex].solutionNumbers.Some? ==>
                    r.remaining == Without(Dedup(spirals[spiralIndex].solutionNumbers.value), present))
              && (r.emptyCellsCount > 0 && spirals[spiralIndex].solutionNumbers.None? ==>
                    && StrictlyAscending(r.remaining)
                    && forall n :: n in r.remaining <==> 1 <= n <= 9 && n !in present && Placeable(grid, cells, n))
  {
    if !(0 <= spiralIndex < |spirals|) {
      return Remaining([], 0);
    }
    var cells := spirals[spiralIndex].cells;
    var present, emptyCells := Scan(grid, cells);
    if |emptyCells| == 0 {
      return Remaining([], 0);
    }
    match spirals[spiralIndex].solutionNumbers
    case Some(solutionNumbers) =>
      var unique := Unique(solutionNumbers);
      var remaining := KeepMissing(unique, present);
      r := Remaining(remaining, |emptyCells|);
    case None =>
      var digits := PlaceableDigits(grid, cells, present, emptyCells);
      r := Remaining(digits, |emptyCells|);
  }

  /** A spiral with empty cells whose solution digits are pairwise distinct
      and as many as its cells always misses one of them: its filled cells
      are too few to hold every solution digit. */
  lemma {:induction false} SolutionDigitMissing(grid: Grid, cells: seq<Cell>, solutionNumbers: seq<int>)
    requires IsGrid(grid) && AllInBounds(cells)
    requires Distinct(solutionNumbers) && |solutionNumbers| == |cells|
    requires |EmptyCells(grid, cells)| > 0
    ensures Without(Dedup(solutionNumbers), Present(grid, cells)) != []
  {
    var values := ValuesAt(grid, cells);
    EmptyCellsCount(grid, cells);
    SetWithoutCardinality(values, 0);
    DistinctIffCardinality(solutionNumbers);
    var x := LargerSetHasOutsider(SetOf(solutionNumbers), Present(grid, cells));
    assert x in SetOf(Without(Dedup(solutionNumbers), Present(grid, cells)));
  }

  /** Spirals the generator commits carry the solution's digits at their
      cells, and those are pairwise distinct. */
  lemma CommittedSolutionDigits(sp: Spiral, solution: Grid)
    requires IsGrid(solution) && SpiralOk(sp, solution)
    ensures sp.solutionNumbers.Some?
    ensures Distinct(sp.solutionNumbers.value) && |sp.solutionNumbers.value| == |sp.cells|
  {
    IsSpiralValidIffRules(sp.cells, solution);
  }

  /** The tracker's card for spiral `spiralIndex`: filled cells, completion
      and the stuck flag. */
  method SpiralProgress(grid: Grid, spirals: seq<Spiral>, spiralIndex: int) returns (p: Progress)
    requires IsGrid(grid) && SpiralsInBounds(spirals) && 0 <= spiralIndex < |spirals|
    ensures var cells := spirals[spiralIndex].cells;
            && p.filledCount == |cells| - Count(ValuesAt(grid, cells), 0)
            && 0 <= p.filledCount <= |cells|
            && (p.isComplete <==> forall i :: 0 <= i < |cells| ==> Get(grid, cells[i]) != 0)
    ensures match spirals[spiralIndex].solutionNumbers
            case Some(numbers) =>
              Distinct(numbers) && |numbers| == |spirals[spiralIndex].cells| ==> !p.hasConflict
            case None => true
    ensures p.hasConflict ==> !p.isComplete
    ensures var cells := spirals[spiralIndex].cells;
            p.hasConflict <==>
              && |EmptyCells(grid, cells)| > 0
              && match spirals[spiralIndex].solutionNumbers
                 case Some(numbers) => Without(Dedup(numbers), Present(grid, cells)) == []
                 case None => forall n :: 1 <= n <= 9 && n !in Present(grid, cells) ==> !Placeable(grid, cells, n)
  {
    var cells := spirals[spiralIndex].cells;
    var r := GetSpiralRemainingNumbers(grid, spirals, spiralIndex);
    EmptyCellsCount(grid, cells);
    p := Progress(|cells| - r.emptyCellsCount, r.emptyCellsCount == 0, r.emptyCellsCount > 0 && |r.remaining| == 0);
    if r.emptyCellsCount > 0 {
      var i :| 0 <= i < |EmptyCells(grid, cells)|;
      var e := EmptyCells(grid, cells)[i];
      assert e in EmptyCells(grid, cells);
      var k :| 0 <= k < |cells| && cells[k] == e;
      assert Get(grid, cells[k]) == 0;
      match spirals[spiralIndex].solutionNumbers
      case Some(numbers) =>
        if Distinct(numbers) && |numbers| == |cells| {
          SolutionDigitMissing(grid, cells, numbers);
        }
      case None =>
        if |r.remaining| > 0 {
          assert r.remaining[0] in r.remaining;
        }
    } else {
      forall i | 0 <= i < |cells| ensures Get(grid, cells[i]) != 0 {
        assert cells[i] !in EmptyCells(grid, cells);
      }
    }
  }

  /** A generated spiral is never reported stuck, whatever the user grid. */
  method CommittedSpiralProgress(grid: Grid, solution: Grid, spirals: seq<Spiral>, spiralIndex: int)
    returns (p: Progress)
    requires IsGrid(grid) && IsGrid(solution) && AllSpiralsOk(spirals, solution) && 0 <= spiralIndex < |spirals|
    ensures !p.hasConflict
  {
    CommittedSolutionDigits(spirals[spiralIndex], solution);
    p := SpiralProgress(grid, spirals, spiralIndex);
  }
}
