/**
 * KillerAdvancedSolver: solve builds the linked matrix with initMatrix,
 * which also detaches the rows of digits no combination of a cage allows,
 * and runs performCalcs, which picks the active column of least count and
 * tries its rows top to bottom: write the row's digit, re-sync the rows of
 * the cell's cage with the digits its combinations still allow, remove the
 * row's constraints and recurse.  The cage's allowed digits come from
 * findCombinations, which this model takes as the functions initial
 * (before any cell is set) and possible (on the grid of the moment).
 */
module KillerAdvancedSolver {
  import opened Layout
  import opened Cells
  import opened Rings
  import opened LinkedMatrix
  import opened KillerRules
  import opened KillerAdvancedModel
  import opened KillerAdvanced
  import KillerGrid

  /** The matrix is an order-n grid's, the grid is n by n, and the puzzle is the grid's digits and cages. */
  ghost predicate Ready(m: KMatrix, grid: KillerGrid.KillerSudokuGrid, p: Puzzle)
    reads m.above, m.below, m.right, m.colHeader, m.colSum, m.isActive, m.cageLock, m.constraintLock, grid.grid
  {
    m.Standard() && m.Ok() && grid.Shaped() && grid.gridDimensions == m.n &&
    p.digits == grid.digits && p.cages == grid.Specs() && PuzzleOk(p, m.n)
  }

  /**
   * KSearch under a name of no recursion, so that the contracts of the
   * methods below and the lemmas they call speak of one and the same term.
   */
  ghost function Search(s: KState, b: int, n: int, v: Values, p: Puzzle, fuel: nat): (o: KOutcome)
    requires KGrid(s, b, n) && IsGrid(v, n) && PuzzleOk(p, n)
    ensures KGrid(o.s, b, n) && IsGrid(o.v, n)
  {
    KSearch(s, b, n, v, p, fuel)
  }

  /**
   * performCalcs, with at most fuel nested calls: its answer (or the
   * exception it throws), the matrix it leaves and the grid it leaves are
   * KSearch's.
   */
  method PerformCalcs(m: KMatrix, grid: KillerGrid.KillerSudokuGrid, p: Puzzle, fuel: nat) returns (status: Status)
    requires Ready(m, grid, p)
    modifies m.above, m.below, m.colSum, m.isActive, m.cageLock, m.constraintLock, grid.grid
    ensures Ready(m, grid, p)
    ensures var o := Search(old(m.State()), m.b, m.n, old(grid.Values()), p, fuel);
      status == o.status && m.State() == o.s && grid.Values() == o.v
    decreases fuel, 3
  {
    if fuel == 0 {
      return Failed;
    }
    var minCol := m.FindMinCol();
    if minCol == -1 {
      return Solved;
    }
    if m.colSum[minCol] == 0 {
      return Failed;
    }
    assert Hooked(m.Links(), m.cols, m.w, minCol);
    if m.below[minCol] < m.w {
      // the cast of minCol.getBelow() to a Constraint fails
      return Crashed;
    }
    status := TryRows(m, grid, p, fuel, m.below[minCol]);
  }

  /** The loop of performCalcs down a column from node q, until the column's header comes round again. */
  method TryRows(m: KMatrix, grid: KillerGrid.KillerSudokuGrid, p: Puzzle, fuel: nat, q: int) returns (status: Status)
    requires Ready(m, grid, p) && fuel >= 1 && 0 <= q < m.size
    modifies m.above, m.below, m.colSum, m.isActive, m.cageLock, m.constraintLock, grid.grid
    ensures Ready(m, grid, p)
    ensures var o := KTry(old(m.State()), m.b, m.n, old(grid.Values()), p, fuel, q);
      status == o.status && m.State() == o.s && grid.Values() == o.v
    decreases fuel, 2
  {
    var activeConstraint := q;
    ghost var target := KTry(m.State(), m.b, m.n, grid.Values(), p, fuel, activeConstraint);
    while activeConstraint >= m.w
      invariant Ready(m, grid, p) && 0 <= activeConstraint < m.size
      invariant KTry(m.State(), m.b, m.n, grid.Values(), p, fuel, activeConstraint) == target
      decreases activeConstraint
    {
      var next;
      status, next := TryRow(m, grid, p, fuel, activeConstraint);
      if status != Failed {
        return;
      }
      activeConstraint := next;
    }
    return Failed;
  }

  /**
   * One pass of performCalcs's loop at node q: write q's row's digit,
   * re-sync the cell's cage, removeConstraintsByRow and recurse; on
   * failure undo and hand back the node now below q.
   */
  method TryRow(m: KMatrix, grid: KillerGrid.KillerSudokuGrid, p: Puzzle, fuel: nat, q: int) returns (status: Status, next: int)
    requires Ready(m, grid, p) && fuel >= 1 && m.w <= q < m.size
    modifies m.above, m.below, m.colSum, m.isActive, m.cageLock, m.constraintLock, grid.grid
    ensures Ready(m, grid, p)
    ensures var o := KTry(old(m.State()), m.b, m.n, old(grid.Values()), p, fuel, q);
      (status != Failed ==> status == o.status && m.State() == o.s && grid.Values() == o.v) &&
      (status == Failed ==> 0 <= next < q && KTry(m.State(), m.b, m.n, grid.Values(), p, fuel, next) == o)
    decreases fuel, 1
  {
    TryIs(m.State(), m.b, m.n, grid.Values(), p, fuel, q);
    var x := RowOf(m.w, q);
    var gridRow, gridCol, k := Place(m, grid, p, x);
    if k == -1 {
      // getCage finds no cage, and deleteRowsByCage dereferences it
      return Crashed, q;
    }
    Advance(m, grid, p, x, k);
    ghost var s1, v1 := m.State(), grid.Values();
    status, next := Descend(m, grid, p, fuel, q, k);
    if status != Failed {
      NextPasses(m.b, m.n, p, fuel, q, k, Search(s1, m.b, m.n, v1, p, fuel - 1));
    }
  }

  /** The try's first step: setCell with row x's digit, then getCage of the cell. */
  method Place(m: KMatrix, grid: KillerGrid.KillerSudokuGrid, p: Puzzle, x: int) returns (gridRow: int, gridCol: int, k: int)
    requires Ready(m, grid, p) && 0 <= x < m.n * m.n * m.n
    modifies grid.grid
    ensures Ready(m, grid, p) && (gridRow, gridCol) == CellOf(m.n, x)
    ensures grid.Values() == Write(old(grid.Values()), grid.digits, m.n, x)
    ensures k == CageOf(p.cages, CellOf(m.n, x))
  {
    var gridSize := grid.gridDimensions;
    DecodeBounds(gridSize, x);
    gridRow := GridRow(gridSize, x);
    gridCol := GridCol(gridSize, x);
    var gridDigit := GridDigit(gridSize, x);
    grid.SetCell(gridRow, gridCol, gridDigit);
    k := CageOf(grid.Specs(), (gridRow, gridCol));
  }

  /** The try's second step: deleteRowsByCage with the digits cage k now allows, sparing row x, then removeConstraintsByRow(x). */
  method Advance(m: KMatrix, grid: KillerGrid.KillerSudokuGrid, p: Puzzle, x: int, k: int)
    requires Ready(m, grid, p) && 0 <= x < m.n * m.n * m.n && 0 <= k < |p.cages|
    modifies m.above, m.below, m.colSum, m.isActive, m.cageLock, m.constraintLock
    ensures Ready(m, grid, p) && x < |m.cols| / 4
    ensures m.State() == RemoveRow(Sync(old(m.State()), m.cols, m.w, m.n, p.cages[k].cells, p.digits, p.possible(grid.Values(), k), x), m.cols, m.w, x)
  {
    var allowed := p.possible(grid.Values(), k);
    m.DeleteRowsByCage(grid.digits, grid.cages[k].cells, allowed, x);
    m.RemoveConstraintsByRow(x);
  }

  /** The rest of the pass once q's row is placed: the nested performCalcs, then on failure the undo. */
  method Descend(m: KMatrix, grid: KillerGrid.KillerSudokuGrid, p: Puzzle, fuel: nat, q: int, k: int) returns (status: Status, next: int)
    requires Ready(m, grid, p) && fuel >= 1 && m.w <= q < m.size && 0 <= k < |p.cages|
    modifies m.above, m.below, m.colSum, m.isActive, m.cageLock, m.constraintLock, grid.grid
    ensures Ready(m, grid, p)
    ensures var o := Search(old(m.State()), m.b, m.n, old(grid.Values()), p, fuel - 1);
      (status != Failed ==> status == o.status && m.State() == o.s && grid.Values() == o.v) &&
      (status == Failed ==> o.status == Failed && 0 <= next < q && KTry(m.State(), m.b, m.n, grid.Values(), p, fuel, next) == KNext(m.b, m.n, p, fuel, q, k, o))
    decreases fuel, 0
  {
    ghost var s0, v0 := m.State(), grid.Values();
    next := q;
    status := PerformCalcs(m, grid, p, fuel - 1);
    if status != Failed {
      return;
    }
    next := Retreat(m, grid, p, fuel, q, k);
  }

  /** The undo after a failed search from node q: empty the cell, resetConstraintsByRow, re-sync cage k, and hand back the node now below q. */
  method Retreat(m: KMatrix, grid: KillerGrid.KillerSudokuGrid, p: Puzzle, fuel: nat, q: int, k: int) returns (next: int)
    requires Ready(m, grid, p) && fuel >= 1 && m.w <= q < m.size && 0 <= k < |p.cages|
    modifies m.above, m.below, m.colSum, m.isActive, m.cageLock, m.constraintLock, grid.grid
    ensures Ready(m, grid, p) && 0 <= next < q
    ensures KTry(m.State(), m.b, m.n, grid.Values(), p, fuel, next) ==
      KNext(m.b, m.n, p, fuel, q, k, KOutcome(Failed, old(m.State()), old(grid.Values())))
  {
    NextIs(m.b, m.n, p, fuel, q, k, KOutcome(Failed, m.State(), grid.Values()));
    var x := RowOf(m.w, q);
    RowInRange(m.w, q, m.n * m.n * m.n);
    Unplace(m, grid, p, x, k);
    assert Hooked(m.Links(), m.cols, m.w, q);
    next := m.below[q];
  }

  /** The undo's steps for row x: setCell to empty, resetConstraintsByRow(x), then deleteRowsByCage with the digits cage k now allows. */
  method Unplace(m: KMatrix, grid: KillerGrid.KillerSudokuGrid, p: Puzzle, x: int, k: int)
    requires Ready(m, grid, p) && 0 <= x < m.n * m.n * m.n && 0 <= k < |p.cages|
    modifies m.above, m.below, m.colSum, m.isActive, m.cageLock, m.constraintLock, grid.grid
    ensures Ready(m, grid, p) && x < |m.cols| / 4
    ensures grid.Values() == Erase(old(grid.Values()), m.n, x)
    ensures m.State() == Sync(ResetRow(old(m.State()), m.cols, m.w, x), m.cols, m.w, m.n, p.cages[k].cells, p.digits, p.possible(grid.Values(), k), x)
  {
    var gridSize := grid.gridDimensions;
    DecodeBounds(gridSize, x);
    grid.SetCell(GridRow(gridSize, x), GridCol(gridSize, x), -1);
    m.ResetConstraintsByRow(x);
    var allowed := p.possible(grid.Values(), k);
    m.DeleteRowsByCage(grid.digits, grid.cages[k].cells, allowed, x);
  }

  /** A search from node q that did not fail ends the pass. */
  lemma NextPasses(b: int, n: int, p: Puzzle, fuel: nat, q: int, k: int, o: KOutcome)
    requires KGrid(o.s, b, n) && IsGrid(o.v, n) && PuzzleOk(p, n) && fuel >= 1
    requires 4 * n * n <= q < 4 * n * n + |Cols(b, n)| && 0 <= k < |p.cages| && o.status != Failed
    ensures KNext(b, n, p, fuel, q, k, o) == o
  {
  }

  /** performCalcs's loop at node q, unfolded: write q's row's digit, then crash without a cage, or re-sync it, remove the row, search and go on as KNext says. */
  lemma TryIs(s: KState, b: int, n: int, v: Values, p: Puzzle, fuel: nat, q: int)
    requires KGrid(s, b, n) && IsGrid(v, n) && PuzzleOk(p, n) && fuel >= 1
    requires 4 * n * n <= q < 4 * n * n + |Cols(b, n)|
    ensures 0 <= RowOf(4 * n * n, q) < n * n * n && RowOf(4 * n * n, q) < |Cols(b, n)| / 4
    ensures var x := RowOf(4 * n * n, q);
      var v1 := Write(v, p.digits, n, x);
      var k := CageOf(p.cages, CellOf(n, x));
      (k == -1 ==> KTry(s, b, n, v, p, fuel, q) == KOutcome(Crashed, s, v1)) &&
      (k != -1 ==>
        var s1 := Sync(s, Cols(b, n), 4 * n * n, n, p.cages[k].cells, p.digits, p.possible(v1, k), x);
        KTry(s, b, n, v, p, fuel, q) == KNext(b, n, p, fuel, q, k, Search(RemoveRow(s1, Cols(b, n), 4 * n * n, x), b, n, v1, p, fuel - 1)))
  {
    RowInRange(4 * n * n, q, n * n * n);
  }

  /** After a failed search from node q: empty its cell, reset q's row, re-sync cage k and go on from the node below q. */
  lemma NextIs(b: int, n: int, p: Puzzle, fuel: nat, q: int, k: int, o: KOutcome)
    requires KGrid(o.s, b, n) && IsGrid(o.v, n) && PuzzleOk(p, n) && fuel >= 1
    requires 4 * n * n <= q < 4 * n * n + |Cols(b, n)| && 0 <= k < |p.cages| && o.status == Failed
    ensures var x := RowOf(4 * n * n, q);
      0 <= x < n * n * n && x < |Cols(b, n)| / 4 &&
      var v2 := Erase(o.v, n, x);
      var s2 := Sync(ResetRow(o.s, Cols(b, n), 4 * n * n, x), Cols(b, n), 4 * n * n, n, p.cages[k].cells, p.digits, p.possible(v2, k), x);
      Hooked(s2.links, Cols(b, n), 4 * n * n, q) &&
      KNext(b, n, p, fuel, q, k, o) == KTry(s2, b, n, v2, p, fuel, s2.links.below[q])
  {
    RowInRange(4 * n * n, q, n * n * n);
  }

  /**
   * solve: initMatrix with the cages' possible digits initial, then
   * performCalcs with room for one nested call per column.  The answer and
   * the grid are KSolve's; on a grid of empty cells and digits of a
   * distinct nonzero alphabet, success fills every cell with a digit and
   * failure leaves every cell as it was or empty.
   */
  method Solve(grid: KillerGrid.KillerSudokuGrid, initial: seq<set<int>>, possible: (Values, int) -> set<int>) returns (status: Status)
    requires grid.Valid() && |initial| == |grid.cages|
    modifies grid.grid
    ensures var o := KSolve(old(grid.Values()), grid.boxSize, grid.gridDimensions, Puzzle(grid.digits, grid.Specs(), initial, possible));
      status == o.status && grid.Values() == o.v
    ensures Digits(grid.digits, grid.gridDimensions) && Givens(old(grid.Values()), grid.digits, grid.gridDimensions) ==>
      (status == Solved ==> forall r, c :: 0 <= r < grid.gridDimensions && 0 <= c < grid.gridDimensions ==> grid.Values()[r][c] in grid.digits) &&
      (status == Failed ==> forall r, c :: 0 <= r < grid.gridDimensions && 0 <= c < grid.gridDimensions ==>
        grid.Values()[r][c] == old(grid.Values())[r][c] || grid.Values()[r][c] == 0)
  {
    ghost var v0 := grid.Values();
    var p := Puzzle(grid.digits, grid.Specs(), initial, possible);
    var gridSize := grid.gridDimensions;
    if Digits(grid.digits, gridSize) && Givens(v0, grid.digits, gridSize) {
      SolveFilled(v0, grid.boxSize, gridSize, p);
    }
    var m := InitMatrix(grid, p);
    SolveIs(v0, m.b, m.n, p);
    status := PerformCalcs(m, grid, p, Depth(gridSize));
  }

  /** initMatrix: a fresh matrix of the grid's order, then the rows of every digit no combination of its cage allows locked away. */
  method InitMatrix(grid: KillerGrid.KillerSudokuGrid, p: Puzzle) returns (m: KMatrix)
    requires grid.Valid() && p.digits == grid.digits && p.cages == grid.Specs() && |p.initial| == |grid.cages|
    ensures Ready(m, grid, p) && m.b == grid.boxSize && m.n == grid.gridDimensions && m.State() == Start(m.b, m.n, p)
    ensures fresh(m.above) && fresh(m.below) && fresh(m.right) && fresh(m.colHeader) && fresh(m.colSum)
    ensures fresh(m.isActive) && fresh(m.cageLock) && fresh(m.constraintLock)
  {
    m := new KMatrix(grid.gridDimensions, grid.boxSize);
    m.InitCages(grid.digits, grid.Specs(), p.initial);
  }

  /** solve's outcome is the search's from the start state with one nested call per column. */
  lemma SolveIs(v: Values, b: int, n: int, p: Puzzle)
    requires IsDims(b, n) && IsGrid(v, n) && PuzzleOk(p, n)
    ensures KSolve(v, b, n, p) == Search(Start(b, n, p), b, n, v, p, Depth(n))
  {
  }
}
