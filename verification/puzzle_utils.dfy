/** The puzzle carver and the live validator (src/utils/puzzleUtils.js):
    removing cells from a solved grid, the cells of each row, column and box,
    the "full and distinct" unit check, the completion report and the
    conflict set. */
module PuzzleUtils {
  import opened Seqs
  import opened Constants
  import opened Board
  import opened Validators

  // ---------------------------------------------------------------------------
  // Units

  /** `getRowCells`: the nine cells of a row, left to right. */
  function RowCells(row: int): (cells: seq<Cell>)
    ensures |cells| == GridSize && Distinct(cells)
    ensures forall k :: 0 <= k < GridSize ==> cells[k] == Cell(row, k)
    ensures forall c :: c in cells <==> c.row == row && 0 <= c.col < GridSize
  {
    var cells := seq(GridSize, col requires 0 <= col < GridSize => Cell(row, col));
    assert forall c: Cell :: c.row == row && 0 <= c.col < GridSize ==> cells[c.col] == c;
    cells
  }

  /** `getColumnCells`: the nine cells of a column, top to bottom. */
  function ColumnCells(col: int): (cells: seq<Cell>)
    ensures |cells| == GridSize && Distinct(cells)
    ensures forall k :: 0 <= k < GridSize ==> cells[k] == Cell(k, col)
    ensures forall c :: c in cells <==> c.col == col && 0 <= c.row < GridSize
  {
    var cells := seq(GridSize, row requires 0 <= row < GridSize => Cell(row, col));
    assert forall c: Cell :: c.col == col && 0 <= c.row < GridSize ==> cells[c.row] == c;
    cells
  }

  /** A box number names the 3x3 block whose corner is
      (floor(box / 3) * 3, (box % 3) * 3). */
  lemma BoxCorner(box: int)
    requires 0 <= box < GridSize
    ensures forall c :: InBounds(c) && BoxOf(c) == box <==>
              (box / 3) * 3 <= c.row < (box / 3) * 3 + 3 && (box % 3) * 3 <= c.col < (box % 3) * 3 + 3
  {
  }

  /** The 3x3 block with top-left corner (r, c), row by row. */
  function Block(r: int, c: int): (cells: seq<Cell>)
    ensures |cells| == GridSize && Distinct(cells)
    ensures forall d :: d in cells <==> r <= d.row < r + 3 && c <= d.col < c + 3
  {
    [Cell(r, c), Cell(r, c + 1), Cell(r, c + 2),
     Cell(r + 1, c), Cell(r + 1, c + 1), Cell(r + 1, c + 2),
     Cell(r + 2, c), Cell(r + 2, c + 1), Cell(r + 2, c + 2)]
  }

  /** `getBoxCells`: the nine cells of a box, row by row (the source's two
      nested three-step loops). Box numbers outside 0..8 would name cells
      outside the grid and are never passed. */
  function BoxCells(box: int): (cells: seq<Cell>)
    requires 0 <= box < GridSize
    ensures |cells| == GridSize && Distinct(cells) && AllInBounds(cells)
    ensures forall c :: c in cells <==> InBounds(c) && BoxOf(c) == box
  {
    BoxCorner(box);
    var cells := Block((box / 3) * 3, (box % 3) * 3);
    assert forall i :: 0 <= i < |cells| ==> cells[i] in cells;
    cells
  }

  predicate UnitsInBounds(units: seq<seq<Cell>>) {
    forall u :: 0 <= u < |units| ==> AllInBounds(units[u])
  }

  function RowUnits(): (us: seq<seq<Cell>>)
    ensures |us| == GridSize && UnitsInBounds(us)
    ensures forall r :: 0 <= r < GridSize ==> us[r] == RowCells(r)
  {
    seq(GridSize, r => RowCells(r))
  }

  function ColumnUnits(): (us: seq<seq<Cell>>)
    ensures |us| == GridSize && UnitsInBounds(us)
    ensures forall c :: 0 <= c < GridSize ==> us[c] == ColumnCells(c)
  {
    seq(GridSize, c => ColumnCells(c))
  }

  function BoxUnits(): (us: seq<seq<Cell>>)
    ensures |us| == GridSize && UnitsInBounds(us)
    ensures forall b :: 0 <= b < GridSize ==> us[b] == BoxCells(b)
  {
    seq(GridSize, b requires 0 <= b < GridSize => BoxCells(b))
  }

  /** The cell lists of the spirals (`spiralData.cells`). */
  function SpiralUnits(spirals: seq<Spiral>): (us: seq<seq<Cell>>)
    ensures |us| == |spirals|
    ensures forall s :: 0 <= s < |spirals| ==> us[s] == spirals[s].cells
    ensures SpiralsInBounds(spirals) ==> UnitsInBounds(us)
  {
    seq(|spirals|, s requires 0 <= s < |spirals| => spirals[s].cells)
  }

  /** Unit `u` of the scan order: rows, then columns, then boxes, then
      spirals. */
  function UnitAt(spirals: seq<Spiral>, u: int): seq<Cell>
    requires 0 <= u < 3 * GridSize + |spirals|
  {
    if u < GridSize then RowCells(u)
    else if u < 2 * GridSize then ColumnCells(u - GridSize)
    else if u < 3 * GridSize then BoxCells(u - 2 * GridSize)
    else spirals[u - 3 * GridSize].cells
  }

  /** Every unit the validator scans: 9 rows, 9 columns, 9 boxes, then the
      spirals, in the order the source scans them. */
  function AllUnits(spirals: seq<Spiral>): (us: seq<seq<Cell>>)
    ensures |us| == 3 * GridSize + |spirals|
    ensures SpiralsInBounds(spirals) ==> UnitsInBounds(us)
  {
    seq(3 * GridSize + |spirals|, u requires 0 <= u < 3 * GridSize + |spirals| => UnitAt(spirals, u))
  }

  // ---------------------------------------------------------------------------
  // Full-and-distinct check and the completion report

  /** `checkConstraint`: every listed cell is filled and the listed values are
      pairwise distinct. */
  function CheckConstraint(grid: Grid, cells: seq<Cell>): (ok: bool)
    requires IsGrid(grid) && AllInBounds(cells)
    ensures ok <==> (forall i :: 0 <= i < |cells| ==> Get(grid, cells[i]) != 0)
                    && Distinct(ValuesAt(grid, cells))
  {
    var values := ValuesAt(grid, cells);
    DistinctIffCardinality(values);
    if 0 in values then false
    else |SetOf(values)| == |values| && |SetOf(values)| == |cells|
  }

  /** `{ rows, columns, boxes, spirals }`: index lists of completed units. */
  datatype Completion = Completion(rows: seq<int>, columns: seq<int>, boxes: seq<int>, spirals: seq<int>)

  /** `xs` lists, in ascending order, exactly the positions of the units that
      are full and distinct. */
  ghost predicate ListsCompleteUnits(grid: Grid, units: seq<seq<Cell>>, xs: seq<int>)
    requires IsGrid(grid) && UnitsInBounds(units)
  {
    && StrictlyAscending(xs)
    && forall x :: x in xs <==> 0 <= x < |units| && CheckConstraint(grid, units[x])
  }

  ghost predicate IsCompletionReport(grid: Grid, spirals: seq<Spiral>, report: Completion)
    requires IsGrid(grid) && SpiralsInBounds(spirals)
  {
    && ListsCompleteUnits(grid, RowUnits(), report.rows)
    && ListsCompleteUnits(grid, ColumnUnits(), report.columns)
    && ListsCompleteUnits(grid, BoxUnits(), report.boxes)
    && ListsCompleteUnits(grid, SpiralUnits(spirals), report.spirals)
  }

  /** One of the four loops of `findCompletedConstraints`. */
  method CompletedUnits(grid: Grid, units: seq<seq<Cell>>) returns (indices: seq<int>)
    requires IsGrid(grid) && UnitsInBounds(units)
    ensures ListsCompleteUnits(grid, units, indices)
  {
    indices := [];
    var i := 0;
    while i < |units|
      invariant 0 <= i <= |units|
      invariant StrictlyAscending(indices)
      invariant forall x :: x in indices ==> x < i
      invariant forall x :: x in indices <==> 0 <= x < i && CheckConstraint(grid, units[x])
    {
      if CheckConstraint(grid, units[i]) {
        assert forall x :: 0 <= x < |indices| ==> indices[x] in indices;
        indices := indices + [i];
      }
      i := i + 1;
    }
  }

  /** `findCompletedConstraints`. */
  method FindCompletedConstraints(grid: Grid, spirals: seq<Spiral>) returns (completed: Completion)
    requires IsGrid(grid) && SpiralsInBounds(spirals)
    ensures IsCompletionReport(grid, spirals, completed)
  {
    var rows := CompletedUnits(grid, RowUnits());
    var columns := CompletedUnits(grid, ColumnUnits());
    var boxes := CompletedUnits(grid, BoxUnits());
    var spiralIndices := CompletedUnits(grid, SpiralUnits(spirals));
    completed := Completion(rows, columns, boxes, spiralIndices);
  }

  // ---------------------------------------------------------------------------
  // Conflicts

  /** Position `k` of the first `n` positions of a unit holds a non-zero value
      that another of those positions also holds. */
  ghost predicate RepeatedAt(grid: Grid, unit: seq<Cell>, n: int, k: int)
    requires IsGrid(grid) && AllInBounds(unit) && 0 <= k < n <= |unit|
  {
    Get(grid, unit[k]) != 0 &&
    exists j :: 0 <= j < n && j != k && Get(grid, unit[j]) == Get(grid, unit[k])
  }

  /** The cells among the first `n` positions of a unit whose value repeats
      there. */
  ghost function UnitConflictsUpTo(grid: Grid, unit: seq<Cell>, n: int): set<Cell>
    requires IsGrid(grid) && AllInBounds(unit) && 0 <= n <= |unit|
  {
    set k | 0 <= k < n && RepeatedAt(grid, unit, n, k) :: unit[k]
  }

  ghost function UnitConflicts(grid: Grid, unit: seq<Cell>): set<Cell>
    requires IsGrid(grid) && AllInBounds(unit)
  {
    UnitConflictsUpTo(grid, unit, |unit|)
  }

  /** Union of the conflicts of each unit. */
  ghost function ConflictsIn(grid: Grid, units: seq<seq<Cell>>): set<Cell>
    requires IsGrid(grid) && UnitsInBounds(units)
  {
    if |units| == 0 then {}
    else ConflictsIn(grid, units[..|units| - 1]) + UnitConflicts(grid, units[|units| - 1])
  }

  /** The conflict set: every cell whose non-zero value repeats in one of its
      row, column, box or spirals. */
  ghost function Conflicts(grid: Grid, spirals: seq<Spiral>): set<Cell>
    requires IsGrid(grid) && SpiralsInBounds(spirals)
  {
    ConflictsIn(grid, AllUnits(spirals))
  }

  /** Scanning position `i` adds nothing when its value is 0 or new. */
  lemma UnitConflictsStepFresh(grid: Grid, unit: seq<Cell>, i: int)
    requires IsGrid(grid) && AllInBounds(unit) && 0 <= i < |unit|
    requires Get(grid, unit[i]) == 0 ||
             forall j :: 0 <= j < i ==> Get(grid, unit[j]) != Get(grid, unit[i])
    ensures UnitConflictsUpTo(grid, unit, i + 1) == UnitConflictsUpTo(grid, unit, i)
  {
    forall x | x in UnitConflictsUpTo(grid, unit, i + 1)
      ensures x in UnitConflictsUpTo(grid, unit, i)
    {
      var k :| 0 <= k < i + 1 && RepeatedAt(grid, unit, i + 1, k) && unit[k] == x;
      var j :| 0 <= j < i + 1 && j != k && Get(grid, unit[j]) == Get(grid, unit[k]);
      assert k != i && j != i;
      assert RepeatedAt(grid, unit, i, k);
    }
    forall x | x in UnitConflictsUpTo(grid, unit, i)
      ensures x in UnitConflictsUpTo(grid, unit, i + 1)
    {
      var k :| 0 <= k < i && RepeatedAt(grid, unit, i, k) && unit[k] == x;
      var j :| 0 <= j < i && j != k && Get(grid, unit[j]) == Get(grid, unit[k]);
      assert RepeatedAt(grid, unit, i + 1, k);
    }
  }

  /** Scanning position `i` whose value first occurred at `f` adds both cells. */
  lemma UnitConflictsStepRepeat(grid: Grid, unit: seq<Cell>, i: int, f: int)
    requires IsGrid(grid) && AllInBounds(unit) && 0 <= f < i < |unit|
    requires Get(grid, unit[i]) != 0 && Get(grid, unit[f]) == Get(grid, unit[i])
    ensures UnitConflictsUpTo(grid, unit, i + 1) == UnitConflictsUpTo(grid, unit, i) + {unit[i], unit[f]}
  {
    forall x | x in UnitConflictsUpTo(grid, unit, i + 1)
      ensures x in UnitConflictsUpTo(grid, unit, i) + {unit[i], unit[f]}
    {
      var k :| 0 <= k < i + 1 && RepeatedAt(grid, unit, i + 1, k) && unit[k] == x;
      if k != i && k != f {
        var j :| 0 <= j < i + 1 && j != k && Get(grid, unit[j]) == Get(grid, unit[k]);
        if j == i {
          assert Get(grid, unit[f]) == Get(grid, unit[k]);
        }
        assert RepeatedAt(grid, unit, i, k);
      }
    }
    assert RepeatedAt(grid, unit, i + 1, i);
    assert RepeatedAt(grid, unit, i + 1, f);
    forall x | x in UnitConflictsUpTo(grid, unit, i)
      ensures x in UnitConflictsUpTo(grid, unit, i + 1)
    {
      var k :| 0 <= k < i && RepeatedAt(grid, unit, i, k) && unit[k] == x;
      var j :| 0 <= j < i && j != k && Get(grid, unit[j]) == Get(grid, unit[k]);
      assert RepeatedAt(grid, unit, i + 1, k);
    }
  }

  /** The body of each loop of `findConflictingCells`: walk the unit
      remembering where each non-zero value first appeared; on a repeat add
      the current cell and that first cell. The source remembers the first
      cell's "row,col" key; here its position in the unit. */
  method ScanUnit(grid: Grid, unit: seq<Cell>, conflicts: set<Cell>) returns (result: set<Cell>)
    requires IsGrid(grid) && AllInBounds(unit)
    ensures result == conflicts + UnitConflicts(grid, unit)
  {
    var seen: map<int, int> := map[];
    result := conflicts;
    var i := 0;
    while i < |unit|
      invariant 0 <= i <= |unit|
      invariant forall v :: v in seen ==> 0 <= seen[v] < i && v != 0 && Get(grid, unit[seen[v]]) == v
      invariant forall k :: 0 <= k < i && Get(grid, unit[k]) != 0 ==> Get(grid, unit[k]) in seen
      invariant result == conflicts + UnitConflictsUpTo(grid, unit, i)
    {
      var cell := unit[i];
      var value := grid[cell.row][cell.col];
      if value != 0 {
        if value in seen {
          UnitConflictsStepRepeat(grid, unit, i, seen[value]);
          result := result + {cell};
          result := result + {unit[seen[value]]};
        } else {
          UnitConflictsStepFresh(grid, unit, i);
          seen := seen[value := i];
        }
      } else {
        UnitConflictsStepFresh(grid, unit, i);
      }
      i := i + 1;
    }
  }

  /** One of the four outer loops of `findConflictingCells`. */
  method ScanUnits(grid: Grid, units: seq<seq<Cell>>, conflicts: set<Cell>) returns (result: set<Cell>)
    requires IsGrid(grid) && UnitsInBounds(units)
    ensures result == conflicts + ConflictsIn(grid, units)
  {
    result := conflicts;
    var u := 0;
    while u < |units|
      invariant 0 <= u <= |units|
      invariant result == conflicts + ConflictsIn(grid, units[..u])
    {
      assert units[..u + 1][..u] == units[..u];
      result := ScanUnit(grid, units[u], result);
      u := u + 1;
    }
    assert units[..|units|] == units;
  }

  /** `findConflictingCells`: the rows, the columns, the boxes, then the
      spirals, each scanned on its own. The cell-to-spiral index the source
      also receives is never read. */
  method FindConflictingCells(grid: Grid, spirals: seq<Spiral>) returns (conflicts: set<Cell>)
    requires IsGrid(grid) && SpiralsInBounds(spirals)
    ensures conflicts == Conflicts(grid, spirals)
  {
    conflicts := ScanUnits(grid, AllUnits(spirals), {});
  }

  /** Membership in the union of unit conflicts, position by position. */
  lemma {:induction false} ConflictsInMembership(grid: Grid, units: seq<seq<Cell>>, x: Cell)
    requires IsGrid(grid) && UnitsInBounds(units)
    ensures x in ConflictsIn(grid, units) <==>
              exists u, k :: 0 <= u < |units| && 0 <= k < |units[u]| && units[u][k] == x &&
                             RepeatedAt(grid, units[u], |units[u]|, k)
  {
    if |units| > 0 {
      var front := units[..|units| - 1];
      ConflictsInMembership(grid, front, x);
      var last := |units| - 1;
      if x in ConflictsIn(grid, units) {
        if x in ConflictsIn(grid, front) {
          var u, k :| 0 <= u < |front| && 0 <= k < |front[u]| && front[u][k] == x &&
                      RepeatedAt(grid, front[u], |front[u]|, k);
          assert units[u] == front[u];
        } else {
          var k :| 0 <= k < |units[last]| && RepeatedAt(grid, units[last], |units[last]|, k) && units[last][k] == x;
        }
      }
      if exists u, k :: 0 <= u < |units| && 0 <= k < |units[u]| && units[u][k] == x &&
                        RepeatedAt(grid, units[u], |units[u]|, k) {
        var u, k :| 0 <= u < |units| && 0 <= k < |units[u]| && units[u][k] == x &&
                    RepeatedAt(grid, units[u], |units[u]|, k);
        if u < last {
          assert front[u] == units[u];
        } else {
          assert x in UnitConflicts(grid, units[last]);
        }
      }
    }
  }

  /** Two cells share a row, a column, a box or a spiral. */
  ghost predicate SharesUnit(spirals: seq<Spiral>, a: Cell, b: Cell) {
    SameUnit(a, b) || exists s :: 0 <= s < |spirals| && a in spirals[s].cells && b in spirals[s].cells
  }

  /** No spiral holds the same non-zero value at two positions. */
  ghost predicate SpiralsConsistent(grid: Grid, spirals: seq<Spiral>)
    requires IsGrid(grid) && SpiralsInBounds(spirals)
  {
    forall s, i, j ::
      (0 <= s < |spirals| && 0 <= i < |spirals[s].cells| && 0 <= j < |spirals[s].cells| &&
       i != j && Get(grid, spirals[s].cells[i]) != 0) ==>
        Get(grid, spirals[s].cells[i]) != Get(grid, spirals[s].cells[j])
  }

  /** Unit `u` of the scan, for each kind of unit. */
  lemma UnitOfScan(spirals: seq<Spiral>, u: int)
    requires 0 <= u < 3 * GridSize + |spirals|
    ensures u < GridSize ==> AllUnits(spirals)[u] == RowCells(u)
    ensures GridSize <= u < 2 * GridSize ==> AllUnits(spirals)[u] == ColumnCells(u - GridSize)
    ensures 2 * GridSize <= u < 3 * GridSize ==> AllUnits(spirals)[u] == BoxCells(u - 2 * GridSize)
    ensures 3 * GridSize <= u ==> AllUnits(spirals)[u] == spirals[u - 3 * GridSize].cells
  {
    assert AllUnits(spirals)[u] == UnitAt(spirals, u);
  }

  /** Two cells of one list appear at two different positions of it. */
  lemma TwoPositions(unit: seq<Cell>, a: Cell, b: Cell) returns (ka: int, kb: int)
    requires a in unit && b in unit && a != b
    ensures 0 <= ka < |unit| && unit[ka] == a
    ensures 0 <= kb < |unit| && unit[kb] == b
    ensures ka != kb
  {
    ka :| 0 <= ka < |unit| && unit[ka] == a;
    kb :| 0 <= kb < |unit| && unit[kb] == b;
  }

  /** The unit of the scan that two cells sharing a unit both lie in. */
  lemma SharedScanUnit(spirals: seq<Spiral>, a: Cell, b: Cell) returns (u: int)
    requires InBounds(a) && InBounds(b)
    requires SharesUnit(spirals, a, b)
    ensures 0 <= u < |AllUnits(spirals)|
    ensures a in AllUnits(spirals)[u] && b in AllUnits(spirals)[u]
  {
    if a.row == b.row {
      u := a.row;
      RowUnitHolds(spirals, a, b);
    } else if a.col == b.col {
      u := GridSize + a.col;
      ColumnUnitHolds(spirals, a, b);
    } else if BoxOf(a) == BoxOf(b) {
      u := 2 * GridSize + BoxOf(a);
      BoxUnitHolds(spirals, a, b);
    } else {
      var s :| 0 <= s < |spirals| && a in spirals[s].cells && b in spirals[s].cells;
      u := 3 * GridSize + s;
      UnitOfScan(spirals, u);
    }
  }

  /** Two different cells sharing a unit sit at two positions of one unit of
      the scan. */
  lemma CommonUnit(spirals: seq<Spiral>, a: Cell, b: Cell) returns (u: int, ka: int, kb: int)
    requires SpiralsInBounds(spirals) && InBounds(a) && InBounds(b) && a != b
    requires SharesUnit(spirals, a, b)
    ensures 0 <= u < |AllUnits(spirals)|
    ensures 0 <= ka < |AllUnits(spirals)[u]| && AllUnits(spirals)[u][ka] == a
    ensures 0 <= kb < |AllUnits(spirals)[u]| && AllUnits(spirals)[u][kb] == b
    ensures ka != kb
  {
    u := SharedScanUnit(spirals, a, b);
    ka, kb := TwoPositions(AllUnits(spirals)[u], a, b);
  }

  lemma RowUnitHolds(spirals: seq<Spiral>, a: Cell, b: Cell)
    requires InBounds(a) && InBounds(b) && a.row == b.row
    ensures a in AllUnits(spirals)[a.row] && b in AllUnits(spirals)[a.row]
  {
    UnitOfScan(spirals, a.row);
  }

  lemma ColumnUnitHolds(spirals: seq<Spiral>, a: Cell, b: Cell)
    requires InBounds(a) && InBounds(b) && a.col == b.col
    ensures a in AllUnits(spirals)[GridSize + a.col] && b in AllUnits(spirals)[GridSize + a.col]
  {
    UnitOfScan(spirals, GridSize + a.col);
  }

  lemma BoxUnitHolds(spirals: seq<Spiral>, a: Cell, b: Cell)
    requires InBounds(a) && InBounds(b) && BoxOf(a) == BoxOf(b)
    ensures 0 <= BoxOf(a) < GridSize
    ensures a in AllUnits(spirals)[2 * GridSize + BoxOf(a)] && b in AllUnits(spirals)[2 * GridSize + BoxOf(a)]
  {
    var box := BoxOf(a);
    BoxOfScan(spirals, box);
    assert a in BoxCells(box) && b in BoxCells(box);
  }

  lemma BoxOfScan(spirals: seq<Spiral>, box: int)
    requires 0 <= box < GridSize
    ensures AllUnits(spirals)[2 * GridSize + box] == BoxCells(box)
  {
    assert AllUnits(spirals)[2 * GridSize + box] == UnitAt(spirals, 2 * GridSize + box);
  }

  /** Two different cells sharing a row, column, box or spiral and holding the
      same non-zero value are both in the conflict set. */
  lemma ConflictSymmetry(grid: Grid, spirals: seq<Spiral>, a: Cell, b: Cell)
    requires IsGrid(grid) && SpiralsInBounds(spirals) && InBounds(a) && InBounds(b) && a != b
    requires SharesUnit(spirals, a, b) && Get(grid, a) != 0 && Get(grid, a) == Get(grid, b)
    ensures a in Conflicts(grid, spirals) && b in Conflicts(grid, spirals)
  {
    var units := AllUnits(spirals);
    var u, ka, kb := CommonUnit(spirals, a, b);
    assert RepeatedAt(grid, units[u], |units[u]|, ka);
    assert RepeatedAt(grid, units[u], |units[u]|, kb);
    ConflictsInMembership(grid, units, a);
    ConflictsInMembership(grid, units, b);
  }

  /** The positions behind a conflicting cell: unit `u` of the scan holds it
      at `k` and its value again at `j`. */
  lemma ConflictPositions(grid: Grid, spirals: seq<Spiral>, x: Cell) returns (u: int, k: int, j: int)
    requires IsGrid(grid) && SpiralsInBounds(spirals) && x in Conflicts(grid, spirals)
    ensures 0 <= u < |AllUnits(spirals)|
    ensures 0 <= k < |AllUnits(spirals)[u]| && 0 <= j < |AllUnits(spirals)[u]| && j != k
    ensures AllUnits(spirals)[u][k] == x && Get(grid, x) != 0
    ensures Get(grid, AllUnits(spirals)[u][j]) == Get(grid, x)
  {
    var units := AllUnits(spirals);
    ConflictsInMembership(grid, units, x);
    u, k :| 0 <= u < |units| && 0 <= k < |units[u]| && units[u][k] == x &&
            RepeatedAt(grid, units[u], |units[u]|, k);
    j :| 0 <= j < |units[u]| && j != k && Get(grid, units[u][j]) == Get(grid, units[u][k]);
  }

  /** Two positions of a row, column or box unit of the scan hold different
      cells of one Sudoku unit. */
  lemma StandardUnitPositions(spirals: seq<Spiral>, u: int, k: int, j: int)
    requires SpiralsInBounds(spirals) && 0 <= u < 3 * GridSize
    requires 0 <= k < GridSize && 0 <= j < GridSize && j != k
    ensures |AllUnits(spirals)[u]| == GridSize
    ensures AllUnits(spirals)[u][k] != AllUnits(spirals)[u][j]
    ensures SameUnit(AllUnits(spirals)[u][k], AllUnits(spirals)[u][j])
  {
    UnitOfScan(spirals, u);
    var unit := AllUnits(spirals)[u];
    if 2 * GridSize <= u {
      var box := u - 2 * GridSize;
      assert unit[k] in BoxCells(box) && unit[j] in BoxCells(box);
    }
  }

  /** Every conflicting cell is filled and shares a unit with a different cell
      holding the same value (spirals listing no cell twice, as generated
      spirals do). */
  lemma ConflictWitness(grid: Grid, spirals: seq<Spiral>, x: Cell) returns (y: Cell)
    requires IsGrid(grid) && SpiralsInBounds(spirals)
    requires forall s :: 0 <= s < |spirals| ==> Distinct(spirals[s].cells)
    requires x in Conflicts(grid, spirals)
    ensures InBounds(x) && Get(grid, x) != 0
    ensures InBounds(y) && y != x && SharesUnit(spirals, x, y) && Get(grid, y) == Get(grid, x)
  {
    var u, k, j := ConflictPositions(grid, spirals, x);
    var unit := AllUnits(spirals)[u];
    y := unit[j];
    if u < 3 * GridSize {
      StandardUnitPositions(spirals, u, k, j);
    } else {
      var s := u - 3 * GridSize;
      assert unit == spirals[s].cells;
      assert x in spirals[s].cells && y in spirals[s].cells;
    }
  }

  /** A conflicting cell witnesses a repetition in a row, column, box or
      spiral. */
  lemma ConflictBreaksConsistency(grid: Grid, spirals: seq<Spiral>, x: Cell)
    requires IsGrid(grid) && SpiralsInBounds(spirals) && x in Conflicts(grid, spirals)
    ensures !Consistent(grid) || !SpiralsConsistent(grid, spirals)
  {
    var u, k, j := ConflictPositions(grid, spirals, x);
    var unit := AllUnits(spirals)[u];
    if u < 3 * GridSize {
      StandardUnitPositions(spirals, u, k, j);
      var a, b := unit[k], unit[j];
      assert InBounds(a) && InBounds(b) && a != b && SameUnit(a, b) && Get(grid, a) != 0;
      assert Get(grid, a) == Get(grid, b);
      assert !Consistent(grid);
    } else {
      var s := u - 3 * GridSize;
      assert unit == spirals[s].cells;
      assert Get(grid, spirals[s].cells[k]) == Get(grid, spirals[s].cells[j]);
      assert !SpiralsConsistent(grid, spirals);
    }
  }

  /** A spiral holding one non-zero value at two positions puts the cell at
      the first position in the conflict set. */
  lemma SpiralRepeatConflicts(grid: Grid, spirals: seq<Spiral>, s: int, i: int, j: int)
    requires IsGrid(grid) && SpiralsInBounds(spirals) && 0 <= s < |spirals|
    requires 0 <= i < |spirals[s].cells| && 0 <= j < |spirals[s].cells| && i != j
    requires Get(grid, spirals[s].cells[i]) != 0
    requires Get(grid, spirals[s].cells[i]) == Get(grid, spirals[s].cells[j])
    ensures spirals[s].cells[i] in Conflicts(grid, spirals)
  {
    var units := AllUnits(spirals);
    var u := 3 * GridSize + s;
    assert units[u] == spirals[s].cells;
    assert RepeatedAt(grid, units[u], |units[u]|, i);
    ConflictsInMembership(grid, units, spirals[s].cells[i]);
  }

  /** The conflict set is empty exactly when no row, column or box repeats a
      digit and no spiral repeats one. */
  lemma NoConflictsIffConsistent(grid: Grid, spirals: seq<Spiral>)
    requires IsGrid(grid) && SpiralsInBounds(spirals)
    ensures Conflicts(grid, spirals) == {} <==> Consistent(grid) && SpiralsConsistent(grid, spirals)
  {
    if Conflicts(grid, spirals) == {} {
      forall a, b | InBounds(a) && InBounds(b) && a != b && SameUnit(a, b) && Get(grid, a) != 0
        ensures Get(grid, a) != Get(grid, b)
      {
        if Get(grid, a) == Get(grid, b) {
          ConflictSymmetry(grid, spirals, a, b);
        }
      }
      forall s, i, j | 0 <= s < |spirals| && 0 <= i < |spirals[s].cells| && 0 <= j < |spirals[s].cells| &&
                       i != j && Get(grid, spirals[s].cells[i]) != 0
        ensures Get(grid, spirals[s].cells[i]) != Get(grid, spirals[s].cells[j])
      {
        if Get(grid, spirals[s].cells[i]) == Get(grid, spirals[s].cells[j]) {
          SpiralRepeatConflicts(grid, spirals, s, i, j);
        }
      }
    } else {
      var x :| x in Conflicts(grid, spirals);
      ConflictBreaksConsistency(grid, spirals, x);
    }
  }

  // ---------------------------------------------------------------------------
  // Carving

  /** A `{ min, max }` range of removed cells. */
  datatype Range = Range(min: int, max: int)

  /** The removal range of a difficulty key; an unknown key falls back to the
      EASY range (`cellsToRemove[difficulty] || cellsToRemove.EASY`). */
  function RemovalRange(difficulty: string): (r: Range)
    ensures 0 < r.min <= r.max < GridSize * GridSize
    ensures r.max - r.min == 10
  {
    if difficulty == "MEDIUM" then Range(40, 50)
    else if difficulty == "HARD" then Range(50, 60)
    else Range(30, 40)
  }

  /** The three keys get 30-40, 40-50 and 50-60 removed cells, and every
      other key gets the EASY range. */
  lemma RemovalRangeByKey(difficulty: string)
    ensures RemovalRange("EASY") == Range(30, 40)
    ensures RemovalRange("MEDIUM") == Range(40, 50)
    ensures RemovalRange("HARD") == Range(50, 60)
    ensures difficulty != "MEDIUM" && difficulty != "HARD" ==> RemovalRange(difficulty) == RemovalRange("EASY")
  {
  }

  /** `{ puzzle, solution }`. */
  datatype Carved = Carved(puzzle: Grid, solution: Grid)

  /** `createPlayablePuzzle`: draw a removal count in the level's range, shuffle
      the 81 cells and zero the first `removeCount` of them. `removedCells`
      names the zeroed cells for the contract. No uniqueness check is made. */
  method CreatePlayablePuzzle(solvedGrid: Grid, difficulty: string) returns (result: Carved, ghost removedCells: set<Cell>)
    requires IsGrid(solvedGrid)
    ensures result.solution == solvedGrid && IsGrid(result.puzzle)
    ensures removedCells <= AllCellsSet()
    ensures RemovalRange(difficulty).min <= |removedCells| <= RemovalRange(difficulty).max
    ensures forall c :: InBounds(c) ==>
              Get(result.puzzle, c) == if c in removedCells then 0 else Get(solvedGrid, c)
  {
    var range := RemovalRange(difficulty);
    var removeCount :| range.min <= removeCount <= range.max;
    var puzzle := solvedGrid;

    var allCells := AllCells();
    allCells := Shuffle(allCells);
    PermutationKeepsDistinct(AllCells(), allCells);
    assert forall c :: c in allCells ==> c in SetOf(allCells);
    assert forall c :: c in SetOf(AllCells()) ==> InBounds(c);

    var removed := 0;
    var k := 0;
    while k < |allCells|
      invariant 0 <= k <= |allCells| && removed == k && k <= removeCount
      invariant IsGrid(puzzle)
      invariant forall c :: InBounds(c) ==>
                  Get(puzzle, c) == if c in allCells[..k] then 0 else Get(solvedGrid, c)
    {
      if removed >= removeCount {
        break;
      }
      var cell := allCells[k];
      assert InBounds(cell);
      assert allCells[..k + 1] == allCells[..k] + [cell];
      puzzle := Update(puzzle, cell, 0);
      removed := removed + 1;
      k := k + 1;
    }
    assert k == removeCount;
    removedCells := SetOf(allCells[..k]);
    PrefixDistinct(allCells, k);
    DistinctIffCardinality(allCells[..k]);
    assert forall c :: c in allCells[..k] ==> c in allCells;
    result := Carved(puzzle, solvedGrid);
  }
}
