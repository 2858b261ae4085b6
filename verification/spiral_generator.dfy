/** The spiral generator (src/utils/spiralGenerator.js): a depth-first search
    for king-move paths of a given length that avoid claimed cells and pass
    the spiral rules, the bounded loop that commits disjoint spirals under a
    cell budget, and the cell-to-spiral index. */
module SpiralGenerator {
  import opened Wrappers
  import opened Seqs
  import opened Constants
  import opened Board
  import opened Validators

  // ---------------------------------------------------------------------------
  // Paths

  /** The cell one step from `c` in direction `d`. */
  function Step(c: Cell, d: (int, int)): Cell {
    Cell(c.row + d.0, c.col + d.1)
  }

  /** `b` is one of the eight neighbours of `a`. */
  predicate Adjacent(a: Cell, b: Cell) {
    (b.row - a.row, b.col - a.col) in Directions
  }

  /** Consecutive cells are neighbours. */
  predicate IsWalk(q: seq<Cell>) {
    forall i :: 0 <= i < |q| - 1 ==> Adjacent(q[i], q[i + 1])
  }

  /** A search path: a non-empty walk of distinct in-grid cells whose cells
      after the start are not claimed by an earlier spiral. The start itself
      is checked by the caller, which only picks unclaimed starts. */
  predicate IsPath(q: seq<Cell>, used: set<Cell>) {
    && |q| >= 1
    && AllInBounds(q)
    && Distinct(q)
    && IsWalk(q)
    && forall i :: 1 <= i < |q| ==> q[i] !in used
  }

  /** The test `findPath` applies to a full-length path: the spiral rules on
      the grid. The search below is written over any such test. */
  function SpiralAccept(grid: Grid): (accept: seq<Cell> -> bool)
    requires IsGrid(grid)
  {
    q => AllInBounds(q) && IsSpiralValid(q, grid)
  }

  /** `q` is a path the search may return when it has reached `path`: it
      extends `path`, has the target size, is a search path and passes the
      final test. */
  predicate Completes(path: seq<Cell>, q: seq<Cell>, targetSize: int, accept: seq<Cell> -> bool, used: set<Cell>) {
    && |path| <= |q|
    && q[..|path|] == path
    && |q| == targetSize
    && IsPath(q, used)
    && accept(q)
  }

  /** The test in the direction loop of `findPath`: in the grid, not yet
      visited on this path, not claimed. */
  predicate Extendable(path: seq<Cell>, n: Cell, used: set<Cell>) {
    InBounds(n) && n !in path && n !in used
  }

  /** Stepping to `n` from the end of `path` cannot lead to an accepted path. */
  ghost predicate Exhausted(path: seq<Cell>, n: Cell, targetSize: int, accept: seq<Cell> -> bool, used: set<Cell>) {
    Extendable(path, n, used) ==> forall q :: !Completes(path + [n], q, targetSize, accept, used)
  }

  /** A search path visits each of the 81 cells at most once. */
  lemma PathLength(q: seq<Cell>, used: set<Cell>)
    requires IsPath(q, used)
    ensures |q| <= GridSize * GridSize
  {
    AllCellsCardinality();
    DistinctIffCardinality(q);
    assert forall c :: c in SetOf(q) ==> c in AllCellsSet() by {
      forall c | c in SetOf(q) ensures c in AllCellsSet() {
        var i :| 0 <= i < |q| && q[i] == c;
        assert InBounds(q[i]);
        assert Cell(c.row, c.col) == c;
      }
    }
    SubsetCardinality(SetOf(q), AllCellsSet());
  }

  /** Appending an extendable neighbour of the last cell keeps a search path. */
  lemma ExtendPath(path: seq<Cell>, used: set<Cell>, d: (int, int))
    requires IsPath(path, used) && d in Directions
    requires Extendable(path, Step(path[|path| - 1], d), used)
    ensures IsPath(path + [Step(path[|path| - 1], d)], used)
  {
    var n := Step(path[|path| - 1], d);
    var q := path + [n];
    assert Adjacent(q[|path| - 1], q[|path|]);
    forall i | 0 <= i < |q| - 1 ensures Adjacent(q[i], q[i + 1]) {
      if i < |path| - 1 {
        assert q[i] == path[i] && q[i + 1] == path[i + 1];
      }
    }
  }

  /** A path accepted through `path + [n]` is accepted through `path`. */
  lemma CompletesShorter(path: seq<Cell>, n: Cell, q: seq<Cell>, targetSize: int, accept: seq<Cell> -> bool, used: set<Cell>)
    requires Completes(path + [n], q, targetSize, accept, used)
    ensures Completes(path, q, targetSize, accept, used)
  {
    assert q[..|path|] == q[..|path| + 1][..|path|];
  }

  /** When `path` has the target size, the only candidate is `path` itself. */
  lemma AtTargetSize(path: seq<Cell>, targetSize: int, accept: seq<Cell> -> bool, used: set<Cell>)
    requires IsPath(path, used) && |path| == targetSize
    ensures forall q :: Completes(path, q, targetSize, accept, used) <==> q == path && accept(path)
  {
    assert path[..|path|] == path;
  }

  /** The direction in which an accepted path through `path` leaves its last
      cell. */
  lemma StepOfCompletion(path: seq<Cell>, q: seq<Cell>, targetSize: int, accept: seq<Cell> -> bool, used: set<Cell>)
    returns (d: (int, int))
    requires IsPath(path, used) && |path| < targetSize && Completes(path, q, targetSize, accept, used)
    ensures d in Directions
    ensures Extendable(path, Step(path[|path| - 1], d), used)
    ensures Completes(path + [Step(path[|path| - 1], d)], q, targetSize, accept, used)
  {
    var m := |path|;
    var last := path[m - 1];
    var n: Cell := q[m];
    assert q[m - 1] == q[..m][m - 1] == last;
    assert Adjacent(q[m - 1], q[m]);
    d := (n.row - last.row, n.col - last.col);
    assert Step(last, d) == n;
    forall i | 0 <= i < m ensures path[i] != n {
      assert path[i] == q[..m][i] == q[i];
    }
    assert q[..m + 1] == q[..m] + [n];
  }

  /** Every accepted path through a path shorter than the target continues to
      a neighbour of its last cell, in one of the (shuffled) directions. */
  lemma CompletionsStepToNeighbour(path: seq<Cell>, targetSize: int, accept: seq<Cell> -> bool, used: set<Cell>, dirs: seq<(int, int)>)
    requires IsPath(path, used) && |path| < targetSize
    requires multiset(dirs) == multiset(Directions)
    ensures forall q :: Completes(path, q, targetSize, accept, used) ==>
              exists k :: 0 <= k < |dirs| &&
                Extendable(path, Step(path[|path| - 1], dirs[k]), used) &&
                Completes(path + [Step(path[|path| - 1], dirs[k])], q, targetSize, accept, used)
  {
    var last := path[|path| - 1];
    forall q | Completes(path, q, targetSize, accept, used)
      ensures exists k :: 0 <= k < |dirs| &&
                Extendable(path, Step(last, dirs[k]), used) &&
                Completes(path + [Step(last, dirs[k])], q, targetSize, accept, used)
    {
      var d := StepOfCompletion(path, q, targetSize, accept, used);
      assert d in multiset(dirs);
      var k :| 0 <= k < |dirs| && dirs[k] == d;
    }
  }

  /** `findPath`, the recursive search of `findSpiral`. The source keeps the
      path and its visited set in the enclosing scope; here the path is the
      argument and the visited set is membership in it. On success the
      returned path is accepted and extends the one passed in; on failure no
      such path exists. */
  method FindPath(path: seq<Cell>, targetSize: int, accept: seq<Cell> -> bool, used: set<Cell>) returns (found: bool, result: seq<Cell>)
    requires IsPath(path, used)
    ensures found ==> Completes(path, result, targetSize, accept, used)
    ensures !found ==> result == path && forall q :: !Completes(path, q, targetSize, accept, used)
    decreases GridSize * GridSize - |path|, 2
  {
    PathLength(path, used);
    if |path| == targetSize {
      AtTargetSize(path, targetSize, accept, used);
      found := accept(path);
      return found, path;
    }
    var shuffledDirs := Shuffle(Directions);
    forall k | 0 <= k < |shuffledDirs| ensures shuffledDirs[k] in Directions {
      assert shuffledDirs[k] in multiset(Directions);
    }
    found, result := TryDirections(path, shuffledDirs, targetSize, accept, used);
    if !found && |path| < targetSize {
      CompletionsStepToNeighbour(path, targetSize, accept, used, shuffledDirs);
    }
  }

  /** The direction loop of `findPath`: try each direction in the shuffled
      order until one leads to a completion. */
  method TryDirections(path: seq<Cell>, dirs: seq<(int, int)>, targetSize: int, accept: seq<Cell> -> bool, used: set<Cell>)
    returns (found: bool, result: seq<Cell>)
    requires IsPath(path, used) && forall k :: 0 <= k < |dirs| ==> dirs[k] in Directions
    ensures found ==> Completes(path, result, targetSize, accept, used)
    ensures !found ==> result == path
    ensures !found ==>
              forall k :: 0 <= k < |dirs| ==> Exhausted(path, Step(path[|path| - 1], dirs[k]), targetSize, accept, used)
    decreases GridSize * GridSize - |path|, 1
  {
    var i := 0;
    while i < |dirs|
      invariant 0 <= i <= |dirs|
      invariant forall k :: 0 <= k < i ==> Exhausted(path, Step(path[|path| - 1], dirs[k]), targetSize, accept, used)
    {
      found, result := TryDirection(path, dirs[i], targetSize, accept, used);
      if found {
        return;
      }
      i := i + 1;
    }
    return false, path;
  }

  /** One turn of the direction loop of `findPath`: step from the last cell
      in direction `dir` when that neighbour is in the grid, unvisited and
      unclaimed, search on from there, and on failure pop the step again. */
  method TryDirection(path: seq<Cell>, dir: (int, int), targetSize: int, accept: seq<Cell> -> bool, used: set<Cell>)
    returns (found: bool, result: seq<Cell>)
    requires IsPath(path, used) && dir in Directions
    ensures found ==> Completes(path, result, targetSize, accept, used)
    ensures !found ==> result == path && Exhausted(path, Step(path[|path| - 1], dir), targetSize, accept, used)
    decreases GridSize * GridSize - |path|, 0
  {
    PathLength(path, used);
    var last := path[|path| - 1];
    var next := Cell(last.row + dir.0, last.col + dir.1);
    assert next == Step(last, dir);
    result := path;
    found := false;
    if 0 <= next.row < GridSize && 0 <= next.col < GridSize && next !in result && next !in used {
      ExtendPath(path, used, dir);
      PathLength(path + [next], used);
      result := result + [next];
      found, result := FindPath(result, targetSize, accept, used);
      if found {
        CompletesShorter(path, next, result, targetSize, accept, used);
        return;
      }
      assert (path + [next])[..|path|] == path;
      result := result[..|result| - 1];
    }
  }

  /** `findSpiral`: search from the one-cell path at the start, accepting a
      full-length path that passes the spiral rules on the grid. */
  method FindSpiral(startRow: int, startCol: int, targetSize: int, grid: Grid, used: set<Cell>) returns (spiral: Option<seq<Cell>>)
    requires IsGrid(grid) && InBounds(Cell(startRow, startCol))
    ensures spiral.Some? ==> Completes([Cell(startRow, startCol)], spiral.value, targetSize, SpiralAccept(grid), used)
    ensures spiral.None? <==> forall q :: !Completes([Cell(startRow, startCol)], q, targetSize, SpiralAccept(grid), used)
  {
    var path := [Cell(startRow, startCol)];
    var found, result := FindPath(path, targetSize, SpiralAccept(grid), used);
    if found {
      return Some(result);
    }
    return None;
  }

  /** A returned spiral starts at the requested cell, has the requested size,
      moves by king steps, repeats no cell and passes the spiral rules. The
      cells after the start avoid claimed cells; the start itself is not
      checked by the search, and the caller picks an unclaimed one. */
  lemma SpiralShape(start: Cell, q: seq<Cell>, targetSize: int, grid: Grid, used: set<Cell>)
    requires IsGrid(grid) && Completes([start], q, targetSize, SpiralAccept(grid), used)
    ensures |q| == targetSize && q[0] == start
    ensures forall i :: 0 <= i < |q| - 1 ==>
              (q[i + 1].row - q[i].row, q[i + 1].col - q[i].col) in Directions
    ensures forall i, j :: 0 <= i < j < |q| ==> q[i] != q[j]
    ensures forall i :: 0 <= i < |q| ==> InBounds(q[i])
    ensures forall i :: 1 <= i < |q| ==> q[i] !in used
    ensures IsSpiralValid(q, grid)
  {
    assert q[0] == q[..1][0];
  }

  // ---------------------------------------------------------------------------
  // Committing spirals

  /** Cells claimed by the committed spirals (`usedCells`). */
  function Covered(spirals: seq<Spiral>): set<Cell> {
    if |spirals| == 0 then {}
    else Covered(spirals[..|spirals| - 1]) + SetOf(spirals[|spirals| - 1].cells)
  }

  /** Sum of the spiral lengths. */
  function TotalCells(spirals: seq<Spiral>): int {
    if |spirals| == 0 then 0
    else TotalCells(spirals[..|spirals| - 1]) + |spirals[|spirals| - 1].cells|
  }

  /** No cell belongs to two spirals. */
  predicate PairwiseDisjoint(spirals: seq<Spiral>) {
    forall s, t, c :: 0 <= s < t < |spirals| && c in spirals[s].cells ==> c !in spirals[t].cells
  }

  /** What `generateSpirals` commits: 4..9 in-grid distinct cells passing the
      spiral rules, stored with the solution digits at those cells. */
  predicate SpiralOk(sp: Spiral, grid: Grid)
    requires IsGrid(grid)
  {
    && MinSpiralSize <= |sp.cells| <= MaxSpiralSize
    && AllInBounds(sp.cells)
    && Distinct(sp.cells)
    && IsWalk(sp.cells)
    && IsSpiralValid(sp.cells, grid)
    && sp.solutionNumbers == Some(ValuesAt(grid, sp.cells))
  }

  predicate AllSpiralsOk(spirals: seq<Spiral>, grid: Grid)
    requires IsGrid(grid)
  {
    forall s :: 0 <= s < |spirals| ==> SpiralOk(spirals[s], grid)
  }

  lemma {:induction false} CoveredMembership(spirals: seq<Spiral>)
    ensures forall c :: c in Covered(spirals) <==>
              exists s :: 0 <= s < |spirals| && c in spirals[s].cells
  {
    if |spirals| > 0 {
      var front := spirals[..|spirals| - 1];
      CoveredMembership(front);
      assert forall s :: 0 <= s < |front| ==> front[s] == spirals[s];
    }
  }

  /** Disjoint spirals with no repeated cell claim as many cells as they
      have in total. */
  lemma {:induction false} CoveredCardinality(spirals: seq<Spiral>)
    requires PairwiseDisjoint(spirals)
    requires forall s :: 0 <= s < |spirals| ==> Distinct(spirals[s].cells)
    ensures |Covered(spirals)| == TotalCells(spirals)
  {
    if |spirals| > 0 {
      var front := spirals[..|spirals| - 1];
      var last := spirals[|spirals| - 1].cells;
      assert forall s :: 0 <= s < |front| ==> front[s] == spirals[s];
      CoveredCardinality(front);
      CoveredMembership(front);
      DistinctIffCardinality(last);
      assert Covered(front) !! SetOf(last);
    }
  }

  /** When no cell is left unclaimed, the spirals cover the whole grid. */
  lemma AllCovered(spirals: seq<Spiral>, used: set<Cell>)
    requires SpiralsInBounds(spirals) && used == Covered(spirals)
    requires forall c :: InBounds(c) ==> c in used
    ensures Covered(spirals) == AllCellsSet()
  {
    CoveredMembership(spirals);
    forall c | c in used ensures c in AllCellsSet() {
      var s :| 0 <= s < |spirals| && c in spirals[s].cells;
      var i :| 0 <= i < |spirals[s].cells| && spirals[s].cells[i] == c;
      assert InBounds(spirals[s].cells[i]);
      assert Cell(c.row, c.col) == c;
    }
  }

  /** The start positions `generateSpirals` chooses from: every unclaimed
      cell, in row-major order. */
  method AvailableStarts(used: set<Cell>) returns (starts: seq<Cell>)
    ensures forall c :: c in starts <==> InBounds(c) && c !in used
    ensures AllInBounds(starts)
  {
    starts := [];
    var row := 0;
    while row < GridSize
      invariant 0 <= row <= GridSize
      invariant forall c :: c in starts <==> InBounds(c) && c.row < row && c !in used
    {
      var col := 0;
      while col < GridSize
        invariant 0 <= col <= GridSize
        invariant forall c :: c in starts <==>
                    InBounds(c) && (c.row < row || (c.row == row && c.col < col)) && c !in used
      {
        if Cell(row, col) !in used {
          starts := starts + [Cell(row, col)];
        }
        col := col + 1;
      }
      row := row + 1;
    }
    assert forall i :: 0 <= i < |starts| ==> starts[i] in starts;
  }

  /** `generateSpirals`. Spirals are committed while the budget allows; the
      loop stops once `minCells` cells are covered, after 1000 attempts, or
      when every cell is claimed. It may therefore return fewer than
      `minCells` cells. `attempts` is the source's attempt counter. */
  method GenerateSpirals(grid: Grid, minCells: int, maxCells: int) returns (spirals: seq<Spiral>, attempts: int)
    requires IsGrid(grid)
    ensures AllSpiralsOk(spirals, grid) && PairwiseDisjoint(spirals)
    ensures TotalCells(spirals) == |Covered(spirals)|
    ensures TotalCells(spirals) <= maxCells || spirals == []
    ensures 0 <= attempts <= MaxGenerationAttempts
    ensures TotalCells(spirals) >= minCells || attempts == MaxGenerationAttempts ||
            Covered(spirals) == AllCellsSet()
  {
    spirals := [];
    var usedCells: set<Cell> := {};
    var totalCells := 0;
    attempts := 0;
    while totalCells < minCells && attempts < MaxGenerationAttempts
      invariant 0 <= attempts <= MaxGenerationAttempts
      invariant AllSpiralsOk(spirals, grid) && PairwiseDisjoint(spirals)
      invariant usedCells == Covered(spirals)
      invariant totalCells == TotalCells(spirals)
      invariant totalCells <= maxCells || spirals == []
      decreases MaxGenerationAttempts - attempts
    {
      attempts := attempts + 1;
      var size :| MinSpiralSize <= size <= MaxSpiralSize;

      var availableStarts := AvailableStarts(usedCells);
      if |availableStarts| == 0 {
        assert SpiralsInBounds(spirals);
        AllCovered(spirals, usedCells);
        break;
      }
      var pick :| 0 <= pick < |availableStarts|;
      var start := availableStarts[pick];
      assert start in availableStarts;

      var spiral := FindSpiral(start.row, start.col, size, grid, usedCells);

      if spiral.Some? && totalCells + |spiral.value| <= maxCells {
        var cells := spiral.value;
        var spiralNumbers := ValuesAt(grid, cells);
        CommitSpiral(grid, spirals, usedCells, start, size, cells);
        spirals := spirals + [Spiral(cells, Some(spiralNumbers))];
        usedCells := usedCells + SetOf(cells);
        totalCells := totalCells + |cells|;
      }
    }
    CoveredCardinality(spirals);
  }

  /** Committing a spiral none of whose cells is claimed keeps the spirals
      disjoint and adds its cells to the claimed set and its length to the
      total. */
  lemma CommitKeepsDisjoint(spirals: seq<Spiral>, cells: seq<Cell>, numbers: seq<int>)
    requires PairwiseDisjoint(spirals)
    requires forall i :: 0 <= i < |cells| ==> cells[i] !in Covered(spirals)
    ensures PairwiseDisjoint(spirals + [Spiral(cells, Some(numbers))])
    ensures Covered(spirals + [Spiral(cells, Some(numbers))]) == Covered(spirals) + SetOf(cells)
    ensures TotalCells(spirals + [Spiral(cells, Some(numbers))]) == TotalCells(spirals) + |cells|
  {
    var spirals' := spirals + [Spiral(cells, Some(numbers))];
    assert spirals'[..|spirals'| - 1] == spirals;
    CoveredMembership(spirals);
    forall s, t, c | 0 <= s < t < |spirals'| && c in spirals'[s].cells
      ensures c !in spirals'[t].cells
    {
      if t == |spirals| {
        assert spirals'[s] == spirals[s];
        assert c in Covered(spirals);
      }
    }
  }

  /** The commit step of `generateSpirals`: a spiral found from an unclaimed
      start, with a size drawn from 4..9, stored with its solution digits,
      keeps every committed spiral well formed and the spirals disjoint. */
  lemma CommitSpiral(grid: Grid, spirals: seq<Spiral>, used: set<Cell>, start: Cell, size: int, cells: seq<Cell>)
    requires IsGrid(grid) && AllSpiralsOk(spirals, grid) && PairwiseDisjoint(spirals)
    requires used == Covered(spirals) && start !in used
    requires MinSpiralSize <= size <= MaxSpiralSize
    requires Completes([start], cells, size, SpiralAccept(grid), used)
    ensures AllInBounds(cells)
    ensures AllSpiralsOk(spirals + [Spiral(cells, Some(ValuesAt(grid, cells)))], grid)
    ensures PairwiseDisjoint(spirals + [Spiral(cells, Some(ValuesAt(grid, cells)))])
    ensures Covered(spirals + [Spiral(cells, Some(ValuesAt(grid, cells)))]) == used + SetOf(cells)
    ensures TotalCells(spirals + [Spiral(cells, Some(ValuesAt(grid, cells)))]) == TotalCells(spirals) + |cells|
  {
    SpiralShape(start, cells, size, grid, used);
    var sp := Spiral(cells, Some(ValuesAt(grid, cells)));
    assert SpiralOk(sp, grid);
    CommitKeepsDisjoint(spirals, cells, ValuesAt(grid, cells));
    var spirals' := spirals + [sp];
    forall s | 0 <= s < |spirals'| ensures SpiralOk(spirals'[s], grid) {
      if s < |spirals| {
        assert spirals'[s] == spirals[s];
      }
    }
  }

  // ---------------------------------------------------------------------------
  // Cell-to-spiral index

  /** `createCellToSpiralMapping`: each cell of spiral `idx` is mapped to
      `idx`, later spirals overwriting earlier ones. */
  method CreateCellToSpiralMapping(spirals: seq<Spiral>) returns (mapping: map<Cell, int>)
    ensures forall c :: c in mapping <==> c in Covered(spirals)
    ensures forall c :: c in mapping ==>
              0 <= mapping[c] < |spirals| && c in spirals[mapping[c]].cells &&
              forall t :: mapping[c] < t < |spirals| ==> c !in spirals[t].cells
    ensures PairwiseDisjoint(spirals) ==>
              forall s, c :: 0 <= s < |spirals| && c in spirals[s].cells ==> c in mapping && mapping[c] == s
  {
    CoveredMembership(spirals);
    mapping := map[];
    var idx := 0;
    while idx < |spirals|
      invariant 0 <= idx <= |spirals|
      invariant forall c :: c in mapping <==> exists s :: 0 <= s < idx && c in spirals[s].cells
      invariant forall c :: c in mapping ==>
                  0 <= mapping[c] < idx && c in spirals[mapping[c]].cells &&
                  forall t :: mapping[c] < t < idx ==> c !in spirals[t].cells
    {
      var cells := spirals[idx].cells;
      var j := 0;
      while j < |cells|
        invariant 0 <= j <= |cells|
        invariant forall c :: c in mapping <==>
                    (exists s :: 0 <= s < idx && c in spirals[s].cells) || c in cells[..j]
        invariant forall c :: c in mapping ==>
                    0 <= mapping[c] <= idx && c in spirals[mapping[c]].cells &&
                    (mapping[c] == idx <==> c in cells[..j]) &&
                    forall t :: mapping[c] < t < idx ==> c !in spirals[t].cells
      {
        assert cells[..j + 1] == cells[..j] + [cells[j]];
        mapping := mapping[cells[j] := idx];
        j := j + 1;
      }
      assert cells[..j] == cells;
      idx := idx + 1;
    }
  }
}
