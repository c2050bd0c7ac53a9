/**
 * The backtracking solver for standard Sudoku, against the abstract grid
 * interface: getSize, getCellValue, setCell, validate and checkComplete.
 */
module StdBacktracking {
  import opened Cells
  import opened Backtracking
  import opened StdGrid

  /** solve: the outcome is that of Search on the entry values; a failure leaves the grid as it was. */
  method Solve(grid: SudokuGrid) returns (solved: bool)
    requires grid.Shaped()
    modifies grid.cells
    ensures var res := Search(grid.rules, grid.digits, old(grid.Values()), grid.size);
      solved == res.Some? && grid.Values() == if solved then res.value else old(grid.Values())
    decreases EmptyCount(grid.Values(), grid.size, grid.size), 2
  {
    var gridSize := grid.GetSize();
    ghost var v := grid.Values();
    var i := 0;
    while i < gridSize * gridSize
      invariant 0 <= i <= gridSize * gridSize
      invariant grid.Values() == v
      invariant forall k :: 0 <= k < i ==> CellAt(v, gridSize, k) != 0
    {
      var row := i / gridSize;
      var col := i % gridSize;
      assert CellAt(v, gridSize, i) == v[row][col];
      var value := grid.GetCellValue(row, col);
      if value == 0 {
        SearchAt(grid.rules, grid.digits, v, gridSize, i);
        solved := TryDigits(grid, v, row, col);
        return;
      }
      i := i + 1;
    }
    SearchNone(grid.rules, grid.digits, v, gridSize);
    return false;
  }

  /**
   * The digit loop of solve for the empty cell (row, col) of v: the
   * outcome is that of Try from position 0, and a failure empties the cell.
   */
  method TryDigits(grid: SudokuGrid, ghost v: Values, row: int, col: int) returns (solved: bool)
    requires grid.Shaped() && grid.Values() == v
    requires 0 <= row < grid.size && 0 <= col < grid.size && v[row][col] == 0
    modifies grid.cells
    ensures var res := Try(grid.rules, grid.digits, v, grid.size, row, col, 0);
      solved == res.Some? && grid.Values() == if solved then res.value else v
    decreases EmptyCount(v, grid.size, grid.size), 1
  {
    var gridSize := grid.size;
    ghost var placed := 0;
    PlaceSame(v, row, col);
    var digit := 0;
    while digit < gridSize
      invariant 0 <= digit <= gridSize
      invariant grid.Values() == Place(v, row, col, placed)
      invariant Try(grid.rules, grid.digits, v, gridSize, row, col, 0) == Try(grid.rules, grid.digits, v, gridSize, row, col, digit)
    {
      solved := TryDigit(grid, v, placed, row, col, digit);
      if solved {
        return;
      }
      placed := grid.digits[digit];
      digit := digit + 1;
    }
    grid.SetCell(row, col, -1);
    PlaceTwice(v, row, col, placed, 0);
    return false;
  }

  /**
   * One pass of the digit loop, with x in (row, col): digit position p is
   * written into (row, col) and the grid is validated, checked for
   * completeness and searched further.  On success the grid holds the
   * outcome of Try from p; otherwise it holds the placement and Try moves on
   * to p + 1.
   */
  method TryDigit(grid: SudokuGrid, ghost v: Values, ghost x: int, row: int, col: int, p: int) returns (solved: bool)
    requires grid.Shaped() && 0 <= row < grid.size && 0 <= col < grid.size
    requires IsGrid(v, grid.size) && v[row][col] == 0 && 0 <= p < grid.size
    requires grid.Values() == Place(v, row, col, x)
    modifies grid.cells
    ensures var res := Try(grid.rules, grid.digits, v, grid.size, row, col, p);
      solved ==> res.Some? && grid.Values() == res.value
    ensures var res := Try(grid.rules, grid.digits, v, grid.size, row, col, p);
      !solved ==> (res == Try(grid.rules, grid.digits, v, grid.size, row, col, p + 1) &&
                   grid.Values() == Place(v, row, col, grid.digits[p]))
    decreases EmptyCount(v, grid.size, grid.size), 0
  {
    grid.SetCell(row, col, p);
    PlaceTwice(v, row, col, x, grid.digits[p]);
    TryStep(grid.rules, grid.digits, v, grid.size, row, col, p);
    var ok := grid.Validate();
    if ok {
      var complete := grid.CheckComplete();
      if complete {
        return true;
      }
      solved := Solve(grid);
    } else {
      solved := false;
    }
  }
}
