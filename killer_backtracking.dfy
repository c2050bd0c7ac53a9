/**
 * The Killer Sudoku backtracking solver: fill the first empty cell in
 * row-major order with each digit position in turn, keep the placement when
 * the grid validates and is then complete or solvable, and otherwise empty
 * the cell again.
 */
module KillerBacktracking {
  import opened Cells
  import opened KillerRules
  import opened Backtracking
  import Layout
  import opened KillerGrid

  /** validate and checkComplete of a Killer grid with box size b, size n and the given cages. */
  function SolverRules(b: int, n: int, specs: seq<CageSpec>): (rules: Rules)
    ensures forall w :: Layout.IsDims(b, n) && CagesInGrid(specs, n) && IsGrid(w, n) ==>
      (rules.valid(w) == GridValid(w, b, n, specs)) && (rules.complete(w) == GridComplete(w, n, specs))
  {
    Rules(w => Layout.IsDims(b, n) && CagesInGrid(specs, n) && IsGrid(w, n) && GridValid(w, b, n, specs),
          w => CagesInGrid(specs, n) && IsGrid(w, n) && GridComplete(w, n, specs))
  }

  /**
   * solve is complete for the Killer rules: if v has an empty cell and a
   * full grid w with no negative value fills it, validates and is
   * complete, solve succeeds on v.
   */
  lemma SearchCompleteKiller(b: int, n: int, specs: seq<CageSpec>, digits: seq<int>, v: Values, w: Values)
    requires Layout.IsDims(b, n) && CagesInGrid(specs, n) && IsGrid(v, n) && DigitSet(digits, n) && !Full(v, n)
    requires FilledFrom(w, v, n, digits) && Full(w, n) && forall r, c :: 0 <= r < n && 0 <= c < n ==> w[r][c] >= 0
    requires GridValid(w, b, n, specs) && GridComplete(w, n, specs)
    ensures Search(SolverRules(b, n, specs), digits, v, n).Some?
  {
    var rules := SolverRules(b, n, specs);
    forall u | Extends(w, u, n)
      ensures rules.valid(u)
    {
      GridValidErased(u, w, b, n, specs);
    }
    SearchComplete(rules, digits, v, n, w);
  }

  /** The rules solve works with for grid g. */
  ghost function GridRules(g: KillerSudokuGrid): Rules
  {
    SolverRules(g.boxSize, g.gridDimensions, g.Specs())
  }

  /** solve: the outcome is that of Search on the entry values; a failure leaves the grid as it was. */
  method Solve(grid: KillerSudokuGrid) returns (solved: bool)
    requires grid.Valid()
    modifies grid.grid
    ensures var res := Search(GridRules(grid), grid.digits, old(grid.Values()), grid.gridDimensions);
      solved == res.Some? && grid.Values() == if solved then res.value else old(grid.Values())
    decreases EmptyCount(grid.Values(), grid.gridDimensions, grid.gridDimensions), 2
  {
    var gridSize := grid.gridDimensions;
    ghost var v := grid.Values();
    var i := FindEmpty(grid);
    if i < gridSize * gridSize {
      SearchAt(GridRules(grid), grid.digits, v, gridSize, i);
      solved := TryDigits(grid, v, i / gridSize, i % gridSize);
      return;
    }
    SearchNone(GridRules(grid), grid.digits, v, gridSize);
    return false;
  }

  /** solve's scan for the first cell holding 0, in row-major order; n*n when there is none. */
  method FindEmpty(grid: KillerSudokuGrid) returns (i: int)
    requires grid.Shaped()
    ensures i == FirstEmpty(grid.Values(), grid.gridDimensions, 0)
  {
    var gridSize := grid.gridDimensions;
    ghost var v := grid.Values();
    i := 0;
    while i < gridSize * gridSize
      invariant 0 <= i <= gridSize * gridSize && v == grid.Values() && IsGrid(v, gridSize)
      invariant FirstEmpty(v, gridSize, i) == FirstEmpty(v, gridSize, 0)
    {
      var row := i / gridSize;
      var col := i % gridSize;
      assert CellAt(v, gridSize, i) == v[row][col];
      var value := grid.GetCellValue(row, col);
      if value == 0 {
        return;
      }
      i := i + 1;
    }
  }

  /**
   * The digit loop of solve for the empty cell (row, col) of v: the
   * outcome is that of Try from position 0, and a failure empties the cell.
   */
  method TryDigits(grid: KillerSudokuGrid, ghost v: Values, row: int, col: int) returns (solved: bool)
    requires grid.Valid() && grid.Values() == v
    requires 0 <= row < grid.gridDimensions && 0 <= col < grid.gridDimensions && v[row][col] == 0
    modifies grid.grid
    ensures var res := Try(GridRules(grid), grid.digits, v, grid.gridDimensions, row, col, 0);
      solved == res.Some? && grid.Values() == if solved then res.value else v
    decreases EmptyCount(v, grid.gridDimensions, grid.gridDimensions), 1
  {
    var gridSize := grid.gridDimensions;
    ghost var rules := GridRules(grid);
    ghost var placed := 0;
    PlaceSame(v, row, col);
    var digit := 0;
    while digit < gridSize
      invariant 0 <= digit <= gridSize
      invariant grid.Values() == Place(v, row, col, placed)
      invariant Try(rules, grid.digits, v, gridSize, row, col, 0) == Try(rules, grid.digits, v, gridSize, row, col, digit)
    {
      solved := TryDigit(grid, v, placed, row, col, digit);
      if solved {
        return;
      }
      placed := grid.digits[digit];
      digit := digit + 1;
    }
    grid.SetCell(row, col, -1);
    PlaceTwice(v, row, col, placed, 0);
    return false;
  }

  /**
   * One pass of the digit loop, with x in (row, col): digit position p is written into (row, col)
   * and the grid is validated, checked for completeness and searched further.
   * On success the grid holds the outcome of Try from p; otherwise it holds
   * the placement and Try moves on to p + 1.
   */
  method TryDigit(grid: KillerSudokuGrid, ghost v: Values, ghost x: int, row: int, col: int, p: int) returns (solved: bool)
    requires grid.Valid() && 0 <= row < grid.gridDimensions && 0 <= col < grid.gridDimensions
    requires IsGrid(v, grid.gridDimensions) && v[row][col] == 0 && 0 <= p < grid.gridDimensions
    requires grid.Values() == Place(v, row, col, x)
    modifies grid.grid
    ensures var res := Try(GridRules(grid), grid.digits, v, grid.gridDimensions, row, col, p);
      solved ==> res.Some? && grid.Values() == res.value
    ensures var res := Try(GridRules(grid), grid.digits, v, grid.gridDimensions, row, col, p);
      !solved ==> (res == Try(GridRules(grid), grid.digits, v, grid.gridDimensions, row, col, p + 1) &&
                   grid.Values() == Place(v, row, col, grid.digits[p]))
    decreases EmptyCount(v, grid.gridDimensions, grid.gridDimensions), 0
  {
    ghost var rules := GridRules(grid);
    grid.SetCell(row, col, p);
    PlaceTwice(v, row, col, x, grid.digits[p]);
    ghost var w := Place(v, row, col, grid.digits[p]);
    TryStep(rules, grid.digits, v, grid.gridDimensions, row, col, p);
    var ok := grid.Validate();
    assert ok == rules.valid(w);
    if ok {
      var complete := grid.CheckComplete();
      assert complete == rules.complete(w);
      if complete {
        return true;
      }
      solved := Solve(grid);
    } else {
      solved := false;
    }
  }
}
