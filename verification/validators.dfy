/** Constraint checks (src/utils/validators.js): may a digit go in a cell, the
    box number of a cell, the spiral shape rules, and the Fisher-Yates
    shuffle. */
module Validators {
  import opened Seqs
  import opened Constants
  import opened Board

  /** `getBoxNumber`: boxes are numbered 0..8 left to right, top to bottom.
      Dafny's `/` with a positive divisor is `Math.floor` of the quotient, as
      in the source, for every integer argument. */
  function BoxNumber(row: int, col: int): (b: int)
    ensures 0 <= row < GridSize && 0 <= col < GridSize ==> 0 <= b < GridSize
  {
    (row / BoxSize) * BoxSize + col / BoxSize
  }

  function BoxOf(c: Cell): int {
    BoxNumber(c.row, c.col)
  }

  /** Two in-grid cells get the same box number exactly when the second lies in
      the 3x3 block whose corner `isValid` computes for the first. */
  lemma BoxGeometry(row: int, col: int, r: int, c: int)
    requires 0 <= row < GridSize && 0 <= col < GridSize
    requires 0 <= r < GridSize && 0 <= c < GridSize
    ensures BoxNumber(r, c) == BoxNumber(row, col) <==>
              (row - row % BoxSize <= r < row - row % BoxSize + BoxSize &&
               col - col % BoxSize <= c < col - col % BoxSize + BoxSize)
  {
  }

  ghost predicate InRow(g: Grid, row: int, num: int)
    requires IsGrid(g) && 0 <= row < GridSize
  {
    exists x :: 0 <= x < GridSize && g[row][x] == num
  }

  ghost predicate InColumn(g: Grid, col: int, num: int)
    requires IsGrid(g) && 0 <= col < GridSize
  {
    exists x :: 0 <= x < GridSize && g[x][col] == num
  }

  ghost predicate InBox(g: Grid, box: int, num: int)
    requires IsGrid(g)
  {
    exists r, c :: 0 <= r < GridSize && 0 <= c < GridSize && BoxNumber(r, c) == box && g[r][c] == num
  }

  /** `num` already occurs in the row, the column or the box of (row, col). */
  ghost predicate Blocked(g: Grid, row: int, col: int, num: int)
    requires IsGrid(g) && 0 <= row < GridSize && 0 <= col < GridSize
  {
    InRow(g, row, num) || InColumn(g, col, num) || InBox(g, BoxNumber(row, col), num)
  }

  /** `isValid`: scans the row, the column and the 3x3 block of the cell. The
      cell itself is scanned too, so a cell already holding `num` rejects it. */
  method IsValid(grid: Grid, row: int, col: int, num: int) returns (ok: bool)
    requires IsGrid(grid) && 0 <= row < GridSize && 0 <= col < GridSize
    ensures ok <==> !Blocked(grid, row, col, num)
    ensures grid[row][col] == num ==> !ok
  {
    var x := 0;
    while x < GridSize
      invariant 0 <= x <= GridSize
      invariant forall y :: 0 <= y < x ==> grid[row][y] != num
    {
      if grid[row][x] == num {
        return false;
      }
      x := x + 1;
    }

    x := 0;
    while x < GridSize
      invariant 0 <= x <= GridSize
      invariant forall y :: 0 <= y < x ==> grid[y][col] != num
    {
      if grid[x][col] == num {
        return false;
      }
      x := x + 1;
    }

    var startRow := row - row % BoxSize;
    var startCol := col - col % BoxSize;
    assert 0 <= startRow && startRow + BoxSize <= GridSize;
    assert 0 <= startCol && startCol + BoxSize <= GridSize;
    var i := 0;
    while i < BoxSize
      invariant 0 <= i <= BoxSize
      invariant forall r, c :: startRow <= r < startRow + i && startCol <= c < startCol + BoxSize ==> grid[r][c] != num
    {
      var r := startRow + i;
      var j := 0;
      while j < BoxSize
        invariant 0 <= j <= BoxSize
        invariant forall r, c :: startRow <= r < startRow + i && startCol <= c < startCol + BoxSize ==> grid[r][c] != num
        invariant forall c :: startCol <= c < startCol + j ==> grid[r][c] != num
      {
        if grid[i + startRow][j + startCol] == num {
          BoxGeometry(row, col, i + startRow, j + startCol);
          return false;
        }
        j := j + 1;
      }
      i := i + 1;
    }

    forall r, c | 0 <= r < GridSize && 0 <= c < GridSize && BoxNumber(r, c) == BoxNumber(row, col)
      ensures grid[r][c] != num
    {
      BoxGeometry(row, col, r, c);
    }
    return true;
  }

  /** Two cells share a row, a column or a box. */
  ghost predicate SameUnit(a: Cell, b: Cell) {
    a.row == b.row || a.col == b.col || BoxOf(a) == BoxOf(b)
  }

  /** No digit repeats within a row, a column or a box. */
  ghost predicate Consistent(g: Grid)
    requires IsGrid(g)
  {
    forall a, b :: InBounds(a) && InBounds(b) && a != b && SameUnit(a, b) && Get(g, a) != 0 ==>
      Get(g, a) != Get(g, b)
  }

  /** A solved grid: full, digits only, and no repetition in any unit. */
  ghost predicate IsSolution(g: Grid) {
    IsGrid(g) && IsFull(g) && DigitsOrEmpty(g) && Consistent(g)
  }

  /** A digit that `isValid` accepts keeps a consistent grid consistent. */
  lemma PlacementKeepsConsistent(g: Grid, c: Cell, num: int)
    requires IsGrid(g) && InBounds(c) && Consistent(g)
    requires num != 0 && !Blocked(g, c.row, c.col, num)
    ensures Consistent(Update(g, c, num))
  {
    var g' := Update(g, c, num);
    forall a, b | InBounds(a) && InBounds(b) && a != b && SameUnit(a, b) && Get(g', a) != 0
      ensures Get(g', a) != Get(g', b)
    {
      if a == c {
        NotBlockedAt(g, c, num, b);
      } else if b == c {
        NotBlockedAt(g, c, num, a);
      }
    }
  }

  /** A digit not blocked at `c` differs from every cell sharing a unit with `c`. */
  lemma NotBlockedAt(g: Grid, c: Cell, num: int, d: Cell)
    requires IsGrid(g) && InBounds(c) && InBounds(d) && SameUnit(c, d)
    requires !Blocked(g, c.row, c.col, num)
    ensures Get(g, d) != num
  {
    if d.row == c.row {
      assert g[c.row][d.col] == Get(g, d);
    } else if d.col == c.col {
      assert g[d.row][c.col] == Get(g, d);
    } else {
      assert BoxNumber(d.row, d.col) == BoxNumber(c.row, c.col);
    }
  }

  /** `Math.ceil(size / 2) + 1`, the most cells a spiral may put in one box,
      row or column. */
  function MaxCellsPerUnit(size: nat): (m: int)
    ensures size <= 2 * (m - 1) < size + 2
  {
    (size + 1) / 2 + 1
  }

  /** The box numbers, rows and columns of a list of cells, position by position. */
  function Boxes(cells: seq<Cell>): (bs: seq<int>)
    ensures |bs| == |cells| && forall i :: 0 <= i < |cells| ==> bs[i] == BoxOf(cells[i])
  {
    seq(|cells|, i requires 0 <= i < |cells| => BoxOf(cells[i]))
  }

  function Rows(cells: seq<Cell>): (rs: seq<int>)
    ensures |rs| == |cells| && forall i :: 0 <= i < |cells| ==> rs[i] == cells[i].row
  {
    seq(|cells|, i requires 0 <= i < |cells| => cells[i].row)
  }

  function Cols(cells: seq<Cell>): (cs: seq<int>)
    ensures |cs| == |cells| && forall i :: 0 <= i < |cells| ==> cs[i] == cells[i].col
  {
    seq(|cells|, i requires 0 <= i < |cells| => cells[i].col)
  }

  /** `isSpiralValid`. The per-box, per-row and per-column counting objects of
      the source are multisets here; `Object.keys(counts).length` is the
      number of distinct keys. */
  function IsSpiralValid(cells: seq<Cell>, grid: Grid): bool
    requires IsGrid(grid) && AllInBounds(cells)
  {
    var size := |cells|;
    var boxCounts := multiset(Boxes(cells));
    var rowCounts := multiset(Rows(cells));
    var colCounts := multiset(Cols(cells));
    var maxPerUnit := MaxCellsPerUnit(size);
    if |SetOf(Boxes(cells))| == 1 then false
    else if |SetOf(Rows(cells))| == 1 then false
    else if |SetOf(Cols(cells))| == 1 then false
    else if exists b :: b in boxCounts && boxCounts[b] > maxPerUnit then false
    else if exists r :: r in rowCounts && rowCounts[r] > maxPerUnit then false
    else if exists c :: c in colCounts && colCounts[c] > maxPerUnit then false
    else
      var numbers := ValuesAt(grid, cells);
      |SetOf(numbers)| == |numbers|
  }

  /** The list is empty or has two positions with different values. */
  predicate Spans(s: seq<int>) {
    |s| == 0 || exists i :: 0 <= i < |s| && s[i] != s[0]
  }

  /** No value occupies more than `limit` positions. */
  predicate NotCrowded(s: seq<int>, limit: int) {
    forall i :: 0 <= i < |s| ==> Count(s, s[i]) <= limit
  }

  /** The spiral rules in plain terms: at least two boxes, two rows and two
      columns (a list of one cell fails, the empty list passes), no box, row
      or column with more than ceil(size/2)+1 of the cells, and pairwise
      distinct digits. */
  ghost predicate SpiralRules(cells: seq<Cell>, grid: Grid)
    requires IsGrid(grid) && AllInBounds(cells)
  {
    var limit := MaxCellsPerUnit(|cells|);
    && Spans(Boxes(cells)) && Spans(Rows(cells)) && Spans(Cols(cells))
    && NotCrowded(Boxes(cells), limit)
    && NotCrowded(Rows(cells), limit)
    && NotCrowded(Cols(cells), limit)
    && Distinct(ValuesAt(grid, cells))
  }

  /** One distinct key exactly when the list is non-empty and constant. */
  lemma SingleKeyIffConstant(s: seq<int>)
    ensures |SetOf(s)| == 1 <==> !Spans(s)
  {
    if |s| > 0 {
      if forall i :: 0 <= i < |s| ==> s[i] == s[0] {
        assert SetOf(s) == {s[0]};
      } else {
        var i :| 0 <= i < |s| && s[i] != s[0];
        SubsetCardinality({s[0], s[i]}, SetOf(s));
      }
    } else {
      assert SetOf(s) == {};
    }
  }

  /** The multiset test of the source agrees with the positional count. */
  lemma CrowdedIffCount(s: seq<int>, limit: int)
    ensures (exists b :: b in multiset(s) && multiset(s)[b] > limit) <==> !NotCrowded(s, limit)
  {
    if exists b :: b in multiset(s) && multiset(s)[b] > limit {
      var b :| b in multiset(s) && multiset(s)[b] > limit;
      var i :| 0 <= i < |s| && s[i] == b;
      CountIsMultiplicity(s, b);
    }
    if !NotCrowded(s, limit) {
      var i :| 0 <= i < |s| && Count(s, s[i]) > limit;
      CountIsMultiplicity(s, s[i]);
      assert s[i] in multiset(s);
    }
  }

  /** `isSpiralValid` accepts exactly the lists that meet the spiral rules. */
  lemma IsSpiralValidIffRules(cells: seq<Cell>, grid: Grid)
    requires IsGrid(grid) && AllInBounds(cells)
    ensures IsSpiralValid(cells, grid) <==> SpiralRules(cells, grid)
  {
    var limit := MaxCellsPerUnit(|cells|);
    SingleKeyIffConstant(Boxes(cells));
    SingleKeyIffConstant(Rows(cells));
    SingleKeyIffConstant(Cols(cells));
    CrowdedIffCount(Boxes(cells), limit);
    CrowdedIffCount(Rows(cells), limit);
    CrowdedIffCount(Cols(cells), limit);
    DistinctIffCardinality(ValuesAt(grid, cells));
  }

  /** A non-empty list inside one box, one row or one column is rejected. */
  lemma SingleUnitRejected(cells: seq<Cell>, grid: Grid)
    requires IsGrid(grid) && AllInBounds(cells) && |cells| > 0
    requires (forall i :: 0 <= i < |cells| ==> BoxOf(cells[i]) == BoxOf(cells[0]))
          || (forall i :: 0 <= i < |cells| ==> cells[i].row == cells[0].row)
          || (forall i :: 0 <= i < |cells| ==> cells[i].col == cells[0].col)
    ensures !IsSpiralValid(cells, grid)
  {
    IsSpiralValidIffRules(cells, grid);
  }

  /** A list with more than ceil(size/2)+1 cells in some box, row or column is
      rejected. */
  lemma CrowdedUnitRejected(cells: seq<Cell>, grid: Grid, k: int)
    requires IsGrid(grid) && AllInBounds(cells)
    requires Count(Boxes(cells), k) > MaxCellsPerUnit(|cells|)
          || Count(Rows(cells), k) > MaxCellsPerUnit(|cells|)
          || Count(Cols(cells), k) > MaxCellsPerUnit(|cells|)
    ensures !IsSpiralValid(cells, grid)
  {
    IsSpiralValidIffRules(cells, grid);
    CountIsMultiplicity(Boxes(cells), k);
    CountIsMultiplicity(Rows(cells), k);
    CountIsMultiplicity(Cols(cells), k);
    if Count(Boxes(cells), k) > MaxCellsPerUnit(|cells|) {
      assert k in multiset(Boxes(cells));
    } else if Count(Rows(cells), k) > MaxCellsPerUnit(|cells|) {
      assert k in multiset(Rows(cells));
    } else {
      assert k in multiset(Cols(cells));
    }
  }

  /** Two cells of the list holding the same digit make it invalid. */
  lemma RepeatedDigitRejected(cells: seq<Cell>, grid: Grid, i: int, j: int)
    requires IsGrid(grid) && AllInBounds(cells)
    requires 0 <= i < j < |cells| && Get(grid, cells[i]) == Get(grid, cells[j])
    ensures !IsSpiralValid(cells, grid)
  {
    IsSpiralValidIffRules(cells, grid);
  }

  /** `shuffleArray`: Fisher-Yates on a copy. The input is a value and stays as
      it was; each `Math.random()` draw is an arbitrary index in [0, i]. */
  method Shuffle<T>(a: seq<T>) returns (shuffled: seq<T>)
    ensures |shuffled| == |a|
    ensures multiset(shuffled) == multiset(a)
  {
    shuffled := a;
    var i := |shuffled| - 1;
    while i > 0
      invariant i < |shuffled| == |a|
      invariant multiset(shuffled) == multiset(a)
    {
      var j :| 0 <= j <= i;
      shuffled := shuffled[i := shuffled[j]][j := shuffled[i]];
      i := i - 1;
    }
  }
}
