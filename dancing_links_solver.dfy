/**
 * DancingLinksSolver: solve builds the linked matrix for the grid with
 * initMatrix, which also removes the givens, and runs performCalcs, which
 * picks the active column of least count and tries its rows, top to
 * bottom, writing each row's digit into the grid.
 */
module DancingLinksSolver {
  import opened Layout
  import opened Cells
  import opened Rings
  import opened LinkedMatrix
  import opened DancingLinksModel
  import opened DancingLinks
  import G = StdGrid

  /** The matrix is an order-n grid's and the grid is n by n. */
  ghost predicate Ready(m: DLMatrix, grid: G.SudokuGrid)
    reads m.above, m.below, m.right, m.left, m.colSum, m.isActive, grid.cells
  {
    m.Standard() && m.Ok() && grid.Shaped() && grid.size == m.n
  }

  /**
   * performCalcs, with at most fuel nested calls: its answer, the matrix it
   * leaves and the grid it leaves are DLSearch's.
   */
  method PerformCalcs(m: DLMatrix, grid: G.SudokuGrid, fuel: nat) returns (solved: bool)
    requires Ready(m, grid)
    modifies m.above, m.below, m.colSum, m.isActive, grid.cells
    ensures Ready(m, grid)
    ensures var o := DLSearch(old(m.State()), m.b, m.n, old(grid.Values()), grid.digits, fuel);
      solved == o.solved && m.State() == o.s && grid.Values() == o.v
    decreases fuel, 3
  {
    if fuel == 0 {
      return false;
    }
    var minCol := m.FindMinCol();
    if minCol == -1 {
      return true;
    }
    if m.colSum[minCol] == 0 {
      return false;
    }
    solved := TryRows(m, grid, fuel, minCol);
  }

  /** The loop of performCalcs down column c, from the header's first node until the header comes round again. */
  method TryRows(m: DLMatrix, grid: G.SudokuGrid, fuel: nat, c: int) returns (solved: bool)
    requires Ready(m, grid) && fuel >= 1 && 0 <= c < m.w
    modifies m.above, m.below, m.colSum, m.isActive, grid.cells
    ensures Ready(m, grid)
    ensures 0 <= old(m.below[c]) < m.size
    ensures var o := DLTry(old(m.State()), m.b, m.n, old(grid.Values()), grid.digits, fuel, old(m.below[c]));
      solved == o.solved && m.State() == o.s && grid.Values() == o.v
    decreases fuel, 2
  {
    assert Hooked(m.Links(), m.cols, m.w, c);
    var activeConstraint := m.below[c];
    ghost var target := DLTry(m.State(), m.b, m.n, grid.Values(), grid.digits, fuel, activeConstraint);
    while activeConstraint >= m.w
      invariant Ready(m, grid) && 0 <= activeConstraint < m.size
      invariant DLTry(m.State(), m.b, m.n, grid.Values(), grid.digits, fuel, activeConstraint) == target
      decreases activeConstraint
    {
      var next;
      solved, next := TryRow(m, grid, fuel, activeConstraint);
      if solved {
        return;
      }
      activeConstraint := next;
    }
    return false;
  }

  /**
   * One pass of performCalcs's loop at node q: write q's row's digit,
   * removeConstraintsByRow and recurse; on failure resetConstraintsByRow,
   * empty the cell, and hand back the node now below q.
   */
  method TryRow(m: DLMatrix, grid: G.SudokuGrid, fuel: nat, q: int) returns (solved: bool, next: int)
    requires Ready(m, grid) && fuel >= 1 && m.w <= q < m.size
    modifies m.above, m.below, m.colSum, m.isActive, grid.cells
    ensures Ready(m, grid)
    ensures var o := DLTry(old(m.State()), m.b, m.n, old(grid.Values()), grid.digits, fuel, q);
      (solved ==> o.solved && m.State() == o.s && grid.Values() == o.v) &&
      (!solved ==> 0 <= next < q && DLTry(m.State(), m.b, m.n, grid.Values(), grid.digits, fuel, next) == o)
    decreases fuel, 1
  {
    TryIs(m.State(), m.b, m.n, grid.Values(), grid.digits, fuel, q);
    var x := RowOf(m.w, q);
    RowInRange(m.w, q, m.n * m.n * m.n);
    Place(m, grid, x);
    solved, next := Descend(m, grid, fuel, q);
  }

  /** The rest of the pass once q's row is placed: the nested performCalcs, then on failure the undo. */
  method Descend(m: DLMatrix, grid: G.SudokuGrid, fuel: nat, q: int) returns (solved: bool, next: int)
    requires Ready(m, grid) && fuel >= 1 && m.w <= q < m.size
    modifies m.above, m.below, m.colSum, m.isActive, grid.cells
    ensures Ready(m, grid)
    ensures var o := DLNext(m.b, m.n, grid.digits, fuel, q, DLSearch(old(m.State()), m.b, m.n, old(grid.Values()), grid.digits, fuel - 1));
      (solved ==> o.solved && m.State() == o.s && grid.Values() == o.v) &&
      (!solved ==> 0 <= next < q && DLTry(m.State(), m.b, m.n, grid.Values(), grid.digits, fuel, next) == o)
    decreases fuel, 0
  {
    next := q;
    solved := PerformCalcs(m, grid, fuel - 1);
    if solved {
      return;
    }
    next := Retreat(m, grid, fuel, q);
  }

  /** The rest of the pass after a failed search from node q: undo q's row and hand back the node now below q. */
  method Retreat(m: DLMatrix, grid: G.SudokuGrid, fuel: nat, q: int) returns (next: int)
    requires Ready(m, grid) && fuel >= 1 && m.w <= q < m.size
    modifies m.above, m.below, m.colSum, m.isActive, grid.cells
    ensures Ready(m, grid) && 0 <= next < q
    ensures DLTry(m.State(), m.b, m.n, grid.Values(), grid.digits, fuel, next) ==
      DLNext(m.b, m.n, grid.digits, fuel, q, DLOutcome(false, old(m.State()), old(grid.Values())))
  {
    NextIs(m.b, m.n, grid.digits, fuel, q, DLOutcome(false, m.State(), grid.Values()));
    RowInRange(m.w, q, m.n * m.n * m.n);
    Unplace(m, grid, RowOf(m.w, q));
    assert Hooked(m.Links(), m.cols, m.w, q);
    next := m.below[q];
  }

  /** The try's first half: setCell with row x's digit, then removeConstraintsByRow(x). */
  method Place(m: DLMatrix, grid: G.SudokuGrid, x: int)
    requires Ready(m, grid) && 0 <= x < m.n * m.n * m.n
    modifies m.above, m.below, m.colSum, m.isActive, grid.cells
    ensures Ready(m, grid) && x < |m.cols| / 4
    ensures m.State() == RemoveRow(old(m.State()), m.cols, m.w, x)
    ensures grid.Values() == Write(old(grid.Values()), grid.digits, m.n, x)
  {
    var gridSize := grid.GetSize();
    DecodeBounds(gridSize, x);
    var gridRow := GridRow(gridSize, x);
    var gridCol := GridCol(gridSize, x);
    var gridDigit := GridDigit(gridSize, x);
    grid.SetCell(gridRow, gridCol, gridDigit);
    m.RemoveConstraintsByRow(x);
  }

  /** The try's undo on failure: resetConstraintsByRow(x), then setCell to empty. */
  method Unplace(m: DLMatrix, grid: G.SudokuGrid, x: int)
    requires Ready(m, grid) && 0 <= x < m.n * m.n * m.n
    modifies m.above, m.below, m.colSum, m.isActive, grid.cells
    ensures Ready(m, grid) && x < |m.cols| / 4
    ensures m.State() == ResetRow(old(m.State()), m.cols, m.w, x)
    ensures grid.Values() == Erase(old(grid.Values()), m.n, x)
  {
    var gridSize := grid.GetSize();
    DecodeBounds(gridSize, x);
    var gridRow := GridRow(gridSize, x);
    var gridCol := GridCol(gridSize, x);
    m.ResetConstraintsByRow(x);
    grid.SetCell(gridRow, gridCol, -1);
  }

  /** performCalcs's loop at node q, unfolded: remove q's row and write its digit, search, then go on as DLNext says. */
  lemma TryIs(s: DLState, b: int, n: int, v: Values, digits: seq<int>, fuel: nat, q: int)
    requires Grid(s, b, n) && IsGrid(v, n) && |digits| == n && fuel >= 1
    requires 4 * n * n <= q < 4 * n * n + |Cols(b, n)|
    ensures 0 <= RowOf(4 * n * n, q) < n * n * n && RowOf(4 * n * n, q) < |Cols(b, n)| / 4
    ensures var x := RowOf(4 * n * n, q);
      DLTry(s, b, n, v, digits, fuel, q) ==
      DLNext(b, n, digits, fuel, q, DLSearch(RemoveRow(s, Cols(b, n), 4 * n * n, x), b, n, Write(v, digits, n, x), digits, fuel - 1))
  {
  }

  /** After a failed search from node q: reset q's row, empty its cell and go on from the node below q. */
  lemma NextIs(b: int, n: int, digits: seq<int>, fuel: nat, q: int, o: DLOutcome)
    requires Grid(o.s, b, n) && IsGrid(o.v, n) && |digits| == n && fuel >= 1
    requires 4 * n * n <= q < 4 * n * n + |Cols(b, n)| && !o.solved
    ensures var x := RowOf(4 * n * n, q);
      0 <= x < n * n * n && x < |Cols(b, n)| / 4 &&
      var s2 := ResetRow(o.s, Cols(b, n), 4 * n * n, x);
      Hooked(s2.links, Cols(b, n), 4 * n * n, q) &&
      DLNext(b, n, digits, fuel, q, o) == DLTry(s2, b, n, Erase(o.v, n, x), digits, fuel, s2.links.below[q])
  {
    assert Hooked(ResetRow(o.s, Cols(b, n), 4 * n * n, RowOf(4 * n * n, q)).links, Cols(b, n), 4 * n * n, q);
  }

  /**
   * solve: initMatrix, then performCalcs with room for one nested call per
   * column.  The answer and the grid are DLSolve's; on givens within a
   * distinct nonzero alphabet, success fills every cell with a digit and
   * failure leaves every cell as it was or empty.
   */
  method Solve(grid: G.SudokuGrid) returns (solved: bool)
    requires grid.Valid() && Givens(grid.Values(), grid.digits, grid.size)
    modifies grid.cells
    ensures var o := DLSolve(old(grid.Values()), grid.digits, grid.boxSize, grid.size);
      solved == o.solved && grid.Values() == o.v
    ensures Digits(grid.digits, grid.size) ==>
      (solved ==> forall r, c :: 0 <= r < grid.size && 0 <= c < grid.size ==> grid.Values()[r][c] in grid.digits) &&
      (!solved ==> forall r, c :: 0 <= r < grid.size && 0 <= c < grid.size ==> grid.Values()[r][c] == old(grid.Values())[r][c] || grid.Values()[r][c] == 0)
  {
    ghost var v0 := grid.Values();
    if Digits(grid.digits, grid.size) {
      SolveFilled(v0, grid.digits, grid.boxSize, grid.size);
    }
    var gridSize := grid.GetSize();
    var m := new DLMatrix(gridSize, grid.boxSize);
    m.InitGivens(grid);
    solved := PerformCalcs(m, grid, Depth(gridSize));
  }
}
