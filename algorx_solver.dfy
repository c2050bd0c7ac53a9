/**
 * AlgorXSolver: solve builds the cover matrix for the grid, removes the
 * givens with init and runs performCalcs, which searches recursively and
 * writes its choices into the grid.  The solver's fields gridSize and
 * xMatrix are the grid's size and the matrix passed to each method.
 */
module AlgorXSolver {
  import opened Layout
  import opened Cells
  import opened AlgorXModel
  import opened AlgorXSearch
  import opened AlgorX
  import opened AlgorXCover
  import G = StdGrid

  /** findMinCol. */
  method FindMinCol(xm: AlgXMatrix) returns (minCol: int)
    requires xm.Valid()
    ensures minCol == MinCol(xm.colSums[..], xm.colInclusion[..])
  {
    ghost var sums, incl := xm.colSums[..], xm.colInclusion[..];
    minCol := -1;
    var i := 0;
    while i < xm.numCols
      invariant 0 <= i <= xm.numCols && -1 <= minCol < i
      invariant minCol == -1 <==> forall j :: 0 <= j < i ==> !incl[j]
      invariant minCol != -1 ==> incl[minCol] && forall j :: 0 <= j < i && incl[j] ==> sums[minCol] <= sums[j] && (j < minCol ==> sums[minCol] < sums[j])
      invariant forall j :: 0 <= j < i && incl[j] ==> sums[j] != 0
      invariant Scan(sums, incl, i, minCol) == Scan(sums, incl, 0, -1)
    {
      if xm.colInclusion[i] {
        if xm.colSums[i] == 0 {
          return i;
        }
        if minCol == -1 || xm.colSums[i] < xm.colSums[minCol] {
          minCol := i;
        }
      }
      i := i + 1;
    }
  }

  /** The matrix holds state s with row table t, every row settled, and the grid matches the matrix's order. */
  ghost predicate Ready(xm: AlgXMatrix, grid: G.SudokuGrid, t: seq<Bits>)
    reads xm.matrix, xm.colSums, xm.colInclusion, grid
  {
    xm.Holds(t) && Settled(xm.State(t), xm.lay) && grid.Shaped() && grid.size == xm.n
  }

  /** performCalcs: its answer, final state and final grid are XSearch's. */
  method PerformCalcs(xm: AlgXMatrix, grid: G.SudokuGrid, ghost t: seq<Bits>) returns (solved: bool, ghost t': seq<Bits>)
    requires Ready(xm, grid, t)
    modifies xm.matrix, xm.colSums, xm.colInclusion, grid.cells
    ensures var o := XSearch(old(xm.State(t)), xm.lay, old(grid.Values()), grid.digits, xm.n);
      solved == o.solved && grid.Values() == o.v && xm.Holds(t') && xm.State(t') == o.s
    decreases Active(xm.colInclusion[..], xm.numCols), 2
  {
    var minCol := FindMinCol(xm);
    if minCol == -1 {
      return true, t;
    }
    if xm.colSums[minCol] == 0 {
      return false, t;
    }
    solved, t' := TryRows(xm, grid, t, minCol);
  }

  /** The loop of performCalcs over the rows with an entry in column c. */
  method TryRows(xm: AlgXMatrix, grid: G.SudokuGrid, ghost t: seq<Bits>, c: int) returns (solved: bool, ghost t': seq<Bits>)
    requires Ready(xm, grid, t) && 0 <= c < xm.numCols && xm.colInclusion[c]
    modifies xm.matrix, xm.colSums, xm.colInclusion, grid.cells
    ensures var o := XTry(old(xm.State(t)), xm.lay, old(grid.Values()), grid.digits, xm.n, c, 0);
      solved == o.solved && grid.Values() == o.v && xm.Holds(t') && xm.State(t') == o.s
    decreases Active(xm.colInclusion[..], xm.numCols), 1
  {
    ghost var s := xm.State(t);
    ghost var target := XTry(s, xm.lay, grid.Values(), grid.digits, xm.n, c, 0);
    var mRow := 0;
    while mRow < xm.numRows
      invariant 0 <= mRow <= xm.numRows
      invariant Ready(xm, grid, t) && Twin(xm.State(t), s) && xm.colInclusion[c]
      invariant XTry(xm.State(t), xm.lay, grid.Values(), grid.digits, xm.n, c, mRow) == target
      decreases xm.numRows - mRow
    {
      solved, t' := TryRow(xm, grid, t, c, mRow);
      if solved {
        return;
      }
      mRow := mRow + 1;
    }
    return false, t;
  }

  /**
   * One pass of performCalcs's loop, for row x: skip it without an entry in
   * column c; otherwise remove it, write its digit, recurse, and on failure
   * empty the cell and run resetConstraintsByRow on x.  A failure leaves
   * the entries and flags as they were, and the rest of the loop runs on
   * the counts the reset leaves.
   */
  method TryRow(xm: AlgXMatrix, grid: G.SudokuGrid, ghost t: seq<Bits>, c: int, x: int) returns (solved: bool, ghost t': seq<Bits>)
    requires Ready(xm, grid, t) && 0 <= c < xm.numCols && xm.colInclusion[c] && 0 <= x < xm.numRows
    modifies xm.matrix, xm.colSums, xm.colInclusion, grid.cells
    ensures var o := XTry(old(xm.State(t)), xm.lay, old(grid.Values()), grid.digits, xm.n, c, x);
      xm.Holds(t') &&
      (solved ==> grid.Values() == o.v && xm.State(t') == o.s && o.solved) &&
      (!solved ==>
         t' == t && Ready(xm, grid, t) && Twin(xm.State(t), old(xm.State(t))) &&
         XTry(xm.State(t), xm.lay, grid.Values(), grid.digits, xm.n, c, x + 1) == o)
    decreases Active(xm.colInclusion[..], xm.numCols), 0
  {
    ghost var s := xm.State(t);
    ghost var lay := xm.lay;
    if !xm.matrix[x, c] {
      XTrySkip(s, lay, grid.Values(), grid.digits, xm.n, c, x);
      return false, t;
    }
    PickedEntryFull(s, lay, x, c);
    FullRowReady(s, lay, x);
    ActiveRemove(s, lay, x);
    SettledRemove(s, lay, x);
    DecodeBounds(xm.n, x);
    var gridSize := grid.GetSize();
    var digit := x % gridSize;
    var addInRowNum := x / (gridSize * gridSize);
    var addInColNum := (x % (gridSize * gridSize)) / gridSize;
    xm.RemoveConstraints(x, t);
    ghost var t1 := TableAfter(Remove, t, lay, x);
    grid.SetCell(addInRowNum, addInColNum, digit);
    var ok, t2 := PerformCalcs(xm, grid, t1);
    if ok {
      return true, t2;
    }
    grid.SetCell(addInRowNum, addInColNum, -1);
    ghost var s2 := xm.State(t2);
    xm.ResetConstraintsByRow(x, t2);
    ResetAfterRemove(s, s2, lay, x);
    return false, t;
  }

  /**
   * solve: the answer and the grid are XSearch's on the matrix init builds
   * from the grid's values.  On givens without a clash and a distinct
   * nonzero alphabet, success leaves a solution that keeps every given,
   * and failure leaves the grid as it was.
   */
  method Solve(grid: G.SudokuGrid) returns (solved: bool)
    requires grid.Valid() && Givens(grid.Values(), grid.digits, grid.size)
    modifies grid.cells
    ensures var o := SolveOutcome(old(grid.Values()), grid.digits, grid.boxSize, grid.size);
      solved == o.solved && grid.Values() == o.v
    ensures Digits(grid.digits, grid.size) && Clashless(old(grid.Values()), grid.boxSize, grid.size) ==>
      (solved ==> IsSolution(grid.Values(), grid.digits, grid.boxSize, grid.size) && Extends(grid.Values(), old(grid.Values()), grid.size)) &&
      (!solved ==> grid.Values() == old(grid.Values()))
  {
    ghost var v0 := grid.Values();
    if Digits(grid.digits, grid.size) && Clashless(v0, grid.boxSize, grid.size) {
      SolveSound(v0, grid.digits, grid.boxSize, grid.size);
    }
    var gridSize := grid.GetSize();
    var xm := new AlgXMatrix(gridSize, grid.boxSize);
    ghost var s0 := InitialMatrix(grid.boxSize, gridSize);
    InitialSettled(grid.boxSize, gridSize);
    ghost var t := xm.Init(grid, s0.table);
    InitSettled(s0, xm.lay, grid.Values(), grid.digits, gridSize, 0, 0);
    ghost var t';
    solved, t' := PerformCalcs(xm, grid, t);
  }
}
