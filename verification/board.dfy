/** The data model shared by every part of the game: cells, 9x9 grids with 0
    for an empty cell, and spirals. The source keys cells by the string
    "row,col"; here a cell is a value of its own. */
module Board {
  import opened Wrappers
  import opened Seqs
  import opened Constants

  datatype Cell = Cell(row: int, col: int)

  /** Rows of columns; every entry is a digit 1..9 or 0 for empty. */
  type Grid = seq<seq<int>>

  /** A spiral: its cells in path order and, for generated spirals, the
      solution digits at those cells captured when it was generated. */
  datatype Spiral = Spiral(cells: seq<Cell>, solutionNumbers: Option<seq<int>>)

  /** The digits `[1, 2, ..., 9]` in ascending order. */
  const DigitList: seq<int> := [1, 2, 3, 4, 5, 6, 7, 8, 9]

  lemma DigitListFacts()
    ensures |DigitList| == GridSize && Distinct(DigitList) && StrictlyAscending(DigitList)
    ensures |SetOf(DigitList)| == GridSize
    ensures forall n :: n in DigitList <==> 1 <= n <= 9
  {
    DistinctIffCardinality(DigitList);
  }

  predicate IsGrid(g: Grid) {
    |g| == GridSize && forall r :: 0 <= r < GridSize ==> |g[r]| == GridSize
  }

  predicate InBounds(c: Cell) {
    0 <= c.row < GridSize && 0 <= c.col < GridSize
  }

  predicate AllInBounds(cells: seq<Cell>) {
    forall i :: 0 <= i < |cells| ==> InBounds(cells[i])
  }

  predicate SpiralsInBounds(spirals: seq<Spiral>) {
    forall s :: 0 <= s < |spirals| ==> AllInBounds(spirals[s].cells)
  }

  /** Every entry is a digit or the empty marker. */
  predicate DigitsOrEmpty(g: Grid)
    requires IsGrid(g)
  {
    forall r, c :: 0 <= r < GridSize && 0 <= c < GridSize ==> 0 <= g[r][c] <= 9
  }

  function Get(g: Grid, c: Cell): int
    requires IsGrid(g) && InBounds(c)
  {
    g[c.row][c.col]
  }

  /** `grid[row][col] = v` on a copy of the grid. */
  function Update(g: Grid, c: Cell, v: int): (g': Grid)
    requires IsGrid(g) && InBounds(c)
    ensures IsGrid(g')
    ensures Get(g', c) == v
    ensures forall d :: InBounds(d) && d != c ==> Get(g', d) == Get(g, d)
  {
    g[c.row := g[c.row][c.col := v]]
  }

  /** Writing back the value a cell already holds gives the same grid; this is
      what makes a placement followed by its undo a no-op. */
  lemma UpdateSameValue(g: Grid, c: Cell)
    requires IsGrid(g) && InBounds(c)
    ensures Update(g, c, Get(g, c)) == g
  {
    assert g[c.row][c.col := g[c.row][c.col]] == g[c.row];
  }

  lemma UpdateTwice(g: Grid, c: Cell, v: int, w: int)
    requires IsGrid(g) && InBounds(c)
    ensures Update(Update(g, c, v), c, w) == Update(g, c, w)
  {
    assert g[c.row][c.col := v][c.col := w] == g[c.row][c.col := w];
  }

  /** The values a list of cells holds, as `cells.map(([r, c]) => grid[r][c])`. */
  function ValuesAt(g: Grid, cells: seq<Cell>): (vs: seq<int>)
    requires IsGrid(g) && AllInBounds(cells)
    ensures |vs| == |cells|
    ensures forall i :: 0 <= i < |cells| ==> vs[i] == Get(g, cells[i])
  {
    seq(|cells|, i requires 0 <= i < |cells| => Get(g, cells[i]))
  }

  /** The 9x9 all-zero grid. */
  function EmptyGrid(): (g: Grid)
    ensures IsGrid(g)
    ensures forall c :: InBounds(c) ==> Get(g, c) == 0
  {
    seq(GridSize, r => seq(GridSize, c => 0))
  }

  /** All 81 cells. */
  function AllCellsSet(): set<Cell> {
    set r, c | 0 <= r < GridSize && 0 <= c < GridSize :: Cell(r, c)
  }

  /** All 81 cells in row-major order, as the source's nested loops list them. */
  function AllCells(): (cells: seq<Cell>)
    ensures |cells| == GridSize * GridSize
    ensures Distinct(cells)
    ensures forall c :: c in cells <==> InBounds(c)
  {
    var cells := seq(GridSize * GridSize, k requires 0 <= k < GridSize * GridSize => Cell(k / GridSize, k % GridSize));
    assert forall c :: InBounds(c) ==> cells[c.row * GridSize + c.col] == c;
    cells
  }

  lemma AllCellsCardinality()
    ensures |AllCellsSet()| == GridSize * GridSize
    ensures SetOf(AllCells()) == AllCellsSet()
  {
    DistinctIffCardinality(AllCells());
    forall c ensures c in AllCellsSet() <==> InBounds(c) {
      if InBounds(c) {
        assert Cell(c.row, c.col) == c;
      }
    }
    assert SetOf(AllCells()) == AllCellsSet();
  }

  /** The cells holding `v`. */
  function CellsHolding(g: Grid, v: int): set<Cell>
    requires IsGrid(g)
  {
    set r, c | 0 <= r < GridSize && 0 <= c < GridSize && g[r][c] == v :: Cell(r, c)
  }

  /** The empty cells. */
  function ZeroCells(g: Grid): set<Cell>
    requires IsGrid(g)
  {
    CellsHolding(g, 0)
  }

  /** The filled cells. */
  function NonZeroCells(g: Grid): set<Cell>
    requires IsGrid(g)
  {
    set r, c | 0 <= r < GridSize && 0 <= c < GridSize && g[r][c] != 0 :: Cell(r, c)
  }

  ghost predicate IsFull(g: Grid)
    requires IsGrid(g)
  {
    forall c :: InBounds(c) ==> Get(g, c) != 0
  }

  /** Filling an empty cell removes exactly that cell from the empty ones. */
  lemma FillShrinksZeroCells(g: Grid, c: Cell, v: int)
    requires IsGrid(g) && InBounds(c) && Get(g, c) == 0 && v != 0
    ensures ZeroCells(Update(g, c, v)) == ZeroCells(g) - {c}
    ensures |ZeroCells(Update(g, c, v))| < |ZeroCells(g)|
  {
    var g' := Update(g, c, v);
    forall d | d in ZeroCells(g') ensures d in ZeroCells(g) - {c} {
      assert InBounds(d) && Get(g', d) == 0;
    }
    forall d | d in ZeroCells(g) - {c} ensures d in ZeroCells(g') {
      assert InBounds(d) && Get(g', d) == 0;
    }
    assert c in ZeroCells(g);
  }

  /** Empty and filled cells split the 81 cells. */
  lemma ZeroAndNonZeroPartition(g: Grid)
    requires IsGrid(g)
    ensures ZeroCells(g) !! NonZeroCells(g)
    ensures ZeroCells(g) + NonZeroCells(g) == AllCellsSet()
    ensures |ZeroCells(g)| + |NonZeroCells(g)| == GridSize * GridSize
  {
    AllCellsCardinality();
    forall c | c in AllCellsSet() ensures c in ZeroCells(g) + NonZeroCells(g) {
      assert InBounds(c);
      if g[c.row][c.col] == 0 { assert c in ZeroCells(g); } else { assert c in NonZeroCells(g); }
    }
  }

  lemma FullMeansNoZeroCells(g: Grid)
    requires IsGrid(g)
    ensures IsFull(g) <==> ZeroCells(g) == {}
  {
    if !IsFull(g) {
      var c :| InBounds(c) && Get(g, c) == 0;
      assert c in ZeroCells(g);
    } else {
      assert forall d :: d in ZeroCells(g) ==> InBounds(d) && Get(g, d) == 0;
    }
  }

  /** Cell `d` comes before cell `c` in row-major order. */
  predicate RowMajorBefore(d: Cell, c: Cell) {
    d.row < c.row || (d.row == c.row && d.col < c.col)
  }

  /** `grid.flat()`: the rows one after another. */
  function Flatten(rows: seq<seq<int>>): seq<int> {
    if |rows| == 0 then [] else Flatten(rows[..|rows| - 1]) + rows[|rows| - 1]
  }

  /** The cells holding `v` among the first `k` in row-major order. */
  ghost function CellsHoldingBefore(g: Grid, v: int, k: int): set<Cell>
    requires IsGrid(g)
  {
    set c | c in CellsHolding(g, v) && 9 * c.row + c.col < k
  }

  /** Position `k` of the flattened grid is row `k / 9`, column `k % 9`. */
  lemma {:induction false} FlattenIndex(rows: seq<seq<int>>)
    requires forall r :: 0 <= r < |rows| ==> |rows[r]| == GridSize
    ensures |Flatten(rows)| == GridSize * |rows|
    ensures forall k :: 0 <= k < |Flatten(rows)| ==> Flatten(rows)[k] == rows[k / 9][k % 9]
  {
    if |rows| > 0 {
      var front := rows[..|rows| - 1];
      FlattenIndex(front);
      var n := |front|;
      forall k | 0 <= k < |Flatten(rows)| ensures Flatten(rows)[k] == rows[k / 9][k % 9] {
        if k < 9 * n {
          assert front[k / 9] == rows[k / 9];
        } else {
          assert k / 9 == n && k % 9 == k - 9 * n;
        }
      }
    }
  }

  lemma CellsHoldingBeforeStep(g: Grid, v: int, k: int)
    requires IsGrid(g) && 0 <= k < GridSize * GridSize
    ensures Cell(k / 9, k % 9) !in CellsHoldingBefore(g, v, k)
    ensures CellsHoldingBefore(g, v, k + 1) ==
              CellsHoldingBefore(g, v, k) + (if g[k / 9][k % 9] == v then {Cell(k / 9, k % 9)} else {})
  {
    var cell := Cell(k / 9, k % 9);
    assert 9 * cell.row + cell.col == k;
    forall c | c in CellsHoldingBefore(g, v, k + 1) && c !in CellsHoldingBefore(g, v, k)
      ensures c == cell
    {
      assert 9 * c.row + c.col == k;
      assert c.row == k / 9;
    }
    if g[k / 9][k % 9] == v {
      assert cell in CellsHolding(g, v);
    }
  }

  /** Counting `v` in the flattened grid counts the cells holding `v`. */
  lemma CountFlattenIsCells(g: Grid, v: int)
    requires IsGrid(g)
    ensures Count(Flatten(g), v) == |CellsHolding(g, v)|
  {
    FlattenIndex(g);
    var flat := Flatten(g);
    var k := 0;
    while k < GridSize * GridSize
      invariant 0 <= k <= GridSize * GridSize
      invariant Count(flat[..k], v) == |CellsHoldingBefore(g, v, k)|
    {
      CellsHoldingBeforeStep(g, v, k);
      CountPrefixStep(flat, k, v);
      k := k + 1;
    }
    assert flat[..k] == flat;
    assert CellsHoldingBefore(g, v, k) == CellsHolding(g, v);
  }

  /** Extending a prefix by one entry adds one to the count when that entry
      is `v`. */
  lemma CountPrefixStep(s: seq<int>, k: int, v: int)
    requires 0 <= k < |s|
    ensures Count(s[..k + 1], v) == Count(s[..k], v) + (if s[k] == v then 1 else 0)
  {
    assert s[..k + 1] == s[..k] + [s[k]];
    CountAppend(s[..k], [s[k]], v);
    assert Count([s[k]], v) == if s[k] == v then 1 else 0 by {
      assert [s[k]][..0] == [];
    }
  }
}
