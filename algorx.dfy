/**
 * The Algorithm X solver's cover matrix as a mutable object: the boolean
 * matrix, the column flags colInclusion and the column counts colSums,
 * updated in place by removeConstraints and resetConstraintsByRow.  Every
 * operation is proved against the value model of AlgorXModel: the matrix
 * always holds the entries of some table of row bits, and an operation
 * leaves the state AlgorXModel.Apply computes.
 */
module AlgorX {
  import opened Layout
  import opened Cells
  import opened AlgorXModel
  import opened AlgorXSearch
  import Alpha = Alphabet
  import G = StdGrid

  /** algXMatrix. */
  class AlgXMatrix {
    const n: int
    const b: int
    const numRows: int
    const numCols: int
    const matrix: array2<bool>
    const colInclusion: array<bool>
    const colSums: array<int>
    /** The four family columns of every row; fixed by the dimensions. */
    ghost const lay: seq<seq<int>>

    ghost predicate Valid()
    {
      IsDims(b, n) && numRows == n * n * n && numCols == 4 * n * n &&
      Laid(lay, b, n) && WellLaid(lay, numCols) &&
      matrix.Length0 == numRows && matrix.Length1 == numCols &&
      colInclusion.Length == numCols && colSums.Length == numCols
    }

    /** The matrix holds exactly the entries of the row bits t. */
    ghost predicate Holds(t: seq<Bits>)
      reads matrix
    {
      Valid() && |t| == numRows && Fours(t) &&
      forall x, j :: 0 <= x < numRows && 0 <= j < numCols ==> matrix[x, j] == EntryOf(t[x], lay[x], j)
    }

    /** The state as a value, with row bits t. */
    function State(t: seq<Bits>): XState
      reads colSums, colInclusion
    {
      XState(t, colSums[..], colInclusion[..])
    }

    /**
     * Midway through the blocks of row i: the matrix holds t with row i
     * replaced by e.bits, and every count has moved from base by row i's
     * count change so far (up for reset blocks, down for remove blocks).
     */
    ghost predicate Tracks(t: seq<Bits>, i: int, e: Effect, base: seq<int>, up: bool)
      reads matrix, colSums
    {
      Valid() && 0 <= i < numRows && |t| == numRows && Fours(t) && Sized(e) && |base| == numCols &&
      Holds(t[i := e.bits]) &&
      forall j :: 0 <= j < numCols ==>
        colSums[j] == if up then base[j] + Contribution(lay[i], e.delta, j) else base[j] - Contribution(lay[i], e.delta, j)
    }

    /** The constructor: every row has its four family entries and every column is included with count dimensions. */
    constructor (dimensions: int, boxSize: int)
      requires IsDims(boxSize, dimensions)
      ensures n == dimensions && b == boxSize && Valid() && lay == ColumnTable(b, n)
      ensures Holds(InitialMatrix(b, n).table) && State(InitialMatrix(b, n).table) == InitialMatrix(b, n)
      ensures fresh(matrix) && fresh(colInclusion) && fresh(colSums)
    {
      var rows := dimensions * dimensions * dimensions;
      var cols := 4 * dimensions * dimensions;
      n := dimensions;
      b := boxSize;
      numRows := rows;
      numCols := cols;
      lay := ColumnTable(boxSize, dimensions);
      matrix := new bool[rows, cols]((x, j) => false);
      colInclusion := new bool[cols];
      colSums := new int[cols];
      new;
      ColumnTableLaid(b, n);
      IncludeColumns();
      SetRows();
      assert colSums[..] == InitialMatrix(b, n).sums;
      assert colInclusion[..] == InitialMatrix(b, n).incl;
    }

    /** The constructor's column loop: every column included, with count dimensions. */
    method IncludeColumns()
      requires Valid()
      modifies colInclusion, colSums
      ensures forall j :: 0 <= j < numCols ==> colInclusion[j] && colSums[j] == n
    {
      var colNum := 0;
      while colNum < numCols
        invariant 0 <= colNum <= numCols
        invariant forall j :: 0 <= j < colNum ==> colInclusion[j] && colSums[j] == n
      {
        colInclusion[colNum] := true;
        colSums[colNum] := n;
        colNum := colNum + 1;
      }
    }

    /** The constructor's row loop: every row gets the entries of its four family columns. */
    method SetRows()
      requires Valid() && forall x, j :: 0 <= x < numRows && 0 <= j < numCols ==> !matrix[x, j]
      modifies matrix
      ensures Holds(InitialMatrix(b, n).table)
    {
      var rowNum := 0;
      while rowNum < numRows
        invariant 0 <= rowNum <= numRows
        invariant forall x, j :: 0 <= x < numRows && 0 <= j < numCols ==> matrix[x, j] == (x < rowNum && EntryOf(Full(), lay[x], j))
      {
        SetRow(rowNum);
        rowNum := rowNum + 1;
      }
      assert forall x :: 0 <= x < numRows ==> InitialMatrix(b, n).table[x] == Full();
    }

    /** The row loop's body for row x: its four family columns set. */
    method SetRow(x: int)
      requires Valid() && 0 <= x < numRows
      modifies matrix
      ensures forall y, j :: 0 <= y < numRows && 0 <= j < numCols ==>
        matrix[y, j] == if y == x then EntryOf(Full(), lay[x], j) || old(matrix[y, j]) else old(matrix[y, j])
    {
      ColumnBands(b, n, x);
      assert lay[x][0] == FamilyColumn(b, n, 0, x) && lay[x][1] == FamilyColumn(b, n, 1, x);
      assert lay[x][2] == FamilyColumn(b, n, 2, x) && lay[x][3] == FamilyColumn(b, n, 3, x);
      matrix[x, CellColumn(n, x)] := true;
      matrix[x, RowColumn(n, x)] := true;
      matrix[x, ColColumn(n, x)] := true;
      matrix[x, BoxColumn(b, n, x)] := true;
    }

    /** The three count updates of a fired block. */
    method MoveCounts(c1: int, c2: int, c3: int, step: int)
      requires 0 <= c1 < colSums.Length && 0 <= c2 < colSums.Length && 0 <= c3 < colSums.Length
      requires c1 != c2 && c1 != c3 && c2 != c3
      modifies colSums
      ensures forall j :: 0 <= j < colSums.Length ==> colSums[j] == old(colSums[j]) + if j == c1 || j == c2 || j == c3 then step else 0
    {
      colSums[c1] := colSums[c1] + step;
      colSums[c2] := colSums[c2] + step;
      colSums[c3] := colSums[c3] + step;
    }

    /** The three entry updates of a fired block, on row i. */
    method SetEntries(i: int, c1: int, c2: int, c3: int, v: bool)
      requires 0 <= i < matrix.Length0
      requires 0 <= c1 < matrix.Length1 && 0 <= c2 < matrix.Length1 && 0 <= c3 < matrix.Length1
      modifies matrix
      ensures forall x, j :: 0 <= x < matrix.Length0 && 0 <= j < matrix.Length1 ==>
        matrix[x, j] == if x == i && (j == c1 || j == c2 || j == c3) then v else old(matrix[x, j])
    {
      matrix[i, c1] := v;
      matrix[i, c2] := v;
      matrix[i, c3] := v;
    }

    /**
     * One `if` block of the loop of removeConstraints (up false) or
     * resetConstraintsByRow (up true): block k of row i, whose guard reads
     * col, the covering row's family-k column.  It fires when row i still
     * has its family-k entry there, and then clears or sets the row's other
     * three entries and moves their counts by one.
     */
    method Block(i: int, k: int, col: int, up: bool, ghost t: seq<Bits>, ghost r: int, ghost e: Effect, ghost base: seq<int>)
      returns (fired: bool)
      requires Tracks(t, i, e, base, up) && 0 <= r < numRows && 0 <= k < 4 && col == lay[r][k]
      modifies matrix, colSums
      ensures fired == (lay[i][k] == col && e.bits[k])
      ensures Tracks(t, i, Step(up, e, lay[i][k] == col, k), base, up)
    {
      assert RowsApart(lay[i], lay[i]) && RowsApart(lay[i], lay[r]);
      assert Distinct4(lay[i]);
      assert matrix[i, col] == (lay[i][k] == col && e.bits[k]) by {
        assert t[i := e.bits][i] == e.bits;
      }
      if matrix[i, col] {
        var m1 := if k == 0 then 1 else 0;
        var m2 := if k <= 1 then 2 else 1;
        var m3 := if k <= 2 then 3 else 2;
        var c1, c2, c3 := FamilyColumn(b, n, m1, i), FamilyColumn(b, n, m2, i), FamilyColumn(b, n, m3, i);
        assert c1 == lay[i][m1] && c2 == lay[i][m2] && c3 == lay[i][m3];
        MoveCounts(c1, c2, c3, if up then 1 else -1);
        SetEntries(i, c1, c2, c3, up);
        fired := true;
        ghost var e' := Step(up, e, true, k);
        assert forall j :: (j == c1 || j == c2 || j == c3) == (j in lay[i] && j != lay[i][k]);
        forall x, j | 0 <= x < numRows && 0 <= j < numCols
          ensures matrix[x, j] == EntryOf(t[i := e'.bits][x], lay[x], j)
        {
          if x == i {
            BlockEntries(e.bits, lay[i], k, up, j);
          } else {
            assert old(matrix[x, j]) == EntryOf(t[i := e.bits][x], lay[x], j);
          }
        }
        forall j | 0 <= j < numCols
          ensures colSums[j] == if up then base[j] + Contribution(lay[i], e'.delta, j) else base[j] - Contribution(lay[i], e'.delta, j)
        {
          BlockCounts(lay[i], e.delta, k, j);
        }
      } else {
        fired := false;
      }
    }
    /**
     * The loop body of removeConstraints (up false) or resetConstraintsByRow
     * (up true) on row i: its four blocks in family order, each seeing what
     * the earlier ones did.
     */
    method Pass(i: int, cellCol: int, rowCol: int, colCol: int, boxCol: int, up: bool, ghost t: seq<Bits>, ghost r: int)
      requires Holds(t) && 0 <= i < numRows && 0 <= r < numRows
      requires cellCol == lay[r][0] && rowCol == lay[r][1] && colCol == lay[r][2] && boxCol == lay[r][3]
      modifies matrix, colSums
      ensures Tracks(t, i, RowStep(if up then Reset else Remove, t[i], Hits(lay, i, r)), old(colSums[..]), up)
    {
      ghost var base := colSums[..];
      ghost var h := Hits(lay, i, r);
      ghost var e := Effect(t[i], Zeros());
      assert t[i := t[i]] == t;
      var fired := Block(i, 0, cellCol, up, t, r, e, base);
      e := Step(up, e, h[0], 0);
      fired := Block(i, 1, rowCol, up, t, r, e, base);
      e := Step(up, e, h[1], 1);
      fired := Block(i, 2, colCol, up, t, r, e, base);
      e := Step(up, e, h[2], 2);
      fired := Block(i, 3, boxCol, up, t, r, e, base);
    }

    /** The loop body of the corrected reset on row i: the four blocks as an `else if` chain. */
    method RestorePass(i: int, cellCol: int, rowCol: int, colCol: int, boxCol: int, ghost t: seq<Bits>, ghost r: int)
      requires Holds(t) && 0 <= i < numRows && 0 <= r < numRows
      requires cellCol == lay[r][0] && rowCol == lay[r][1] && colCol == lay[r][2] && boxCol == lay[r][3]
      modifies matrix, colSums
      ensures Tracks(t, i, RowStep(Restore, t[i], Hits(lay, i, r)), old(colSums[..]), true)
    {
      ghost var base := colSums[..];
      ghost var e := Effect(t[i], Zeros());
      RestoreRow(t[i], Hits(lay, i, r));
      assert t[i := t[i]] == t;
      var fired := Block(i, 0, cellCol, true, t, r, e, base);
      if !fired {
        fired := Block(i, 1, rowCol, true, t, r, e, base);
        if !fired {
          fired := Block(i, 2, colCol, true, t, r, e, base);
          if !fired {
            fired := Block(i, 3, boxCol, true, t, r, e, base);
          }
        }
      }
    }

    /** Rows below i have had op on covering row r applied, with the counts moved from sums accordingly. */
    ghost predicate Swept(op: Op, t: seq<Bits>, r: int, i: int, sums: seq<int>)
      reads matrix, colSums
      requires Valid() && |t| == numRows && Fours(t) && 0 <= r < numRows && 0 <= i <= numRows
    {
      |sums| == numCols &&
      Holds(Splice(TableAfter(op, t, lay, r), t, i)) &&
      forall j :: 0 <= j < numCols ==>
        colSums[j] == if op == Remove then sums[j] - Total(op, t, lay, r, j, i) else sums[j] + Total(op, t, lay, r, j, i)
    }

    /** One turn of the loop over the rows. */
    method SweepRow(op: Op, r: int, i: int, cellCol: int, rowCol: int, colCol: int, boxCol: int, ghost t: seq<Bits>, ghost sums: seq<int>)
      requires Valid() && |t| == numRows && Fours(t) && 0 <= r < numRows && 0 <= i < numRows
      requires cellCol == lay[r][0] && rowCol == lay[r][1] && colCol == lay[r][2] && boxCol == lay[r][3]
      requires Swept(op, t, r, i, sums)
      modifies matrix, colSums
      ensures Swept(op, t, r, i + 1, sums)
    {
      ghost var u := TableAfter(op, t, lay, r);
      ghost var w := Splice(u, t, i);
      if op == Restore {
        RestorePass(i, cellCol, rowCol, colCol, boxCol, w, r);
      } else {
        Pass(i, cellCol, rowCol, colCol, boxCol, op == Reset, w, r);
      }
      assert w[i] == t[i];
      assert w[i := u[i]] == Splice(u, t, i + 1);
    }

    /** The loop of removeConstraints, resetConstraintsByRow or the corrected reset over every row. */
    method Sweep(op: Op, rowNum: int, cellCol: int, rowCol: int, colCol: int, boxCol: int, ghost t: seq<Bits>)
      requires Holds(t) && 0 <= rowNum < numRows
      requires cellCol == lay[rowNum][0] && rowCol == lay[rowNum][1] && colCol == lay[rowNum][2] && boxCol == lay[rowNum][3]
      modifies matrix, colSums
      ensures Holds(TableAfter(op, t, lay, rowNum))
      ensures colSums[..] == SumsAfter(op, old(colSums[..]), t, lay, rowNum)
    {
      ghost var sums := colSums[..];
      ghost var u := TableAfter(op, t, lay, rowNum);
      assert Splice(u, t, 0) == t;
      var i := 0;
      while i < numRows
        invariant 0 <= i <= numRows
        invariant Swept(op, t, rowNum, i, sums)
      {
        SweepRow(op, rowNum, i, cellCol, rowCol, colCol, boxCol, t, sums);
        i := i + 1;
      }
      assert Splice(u, t, numRows) == u;
      ghost var sums' := SumsAfter(op, sums, t, lay, rowNum);
      assert forall j :: 0 <= j < numCols ==> colSums[j] == sums'[j];
      assert colSums[..] == sums';
    }

    /**
     * removeConstraints (op Remove), resetConstraintsByRow (op Reset) or the
     * corrected reset (op Restore) on covering row rowNum: set the four
     * flags, then run the blocks on every row.
     */
    method Update(op: Op, rowNum: int, ghost t: seq<Bits>)
      requires Holds(t) && 0 <= rowNum < numRows
      modifies matrix, colSums, colInclusion
      ensures Holds(TableAfter(op, t, lay, rowNum))
      ensures State(TableAfter(op, t, lay, rowNum)) == Apply(op, old(State(t)), lay, rowNum)
    {
      var cellCol, rowCol, colCol := CellColumn(n, rowNum), RowColumn(n, rowNum), ColColumn(n, rowNum);
      var boxCol := BoxColumn(b, n, rowNum);
      assert cellCol == FamilyColumn(b, n, 0, rowNum) && rowCol == FamilyColumn(b, n, 1, rowNum);
      assert colCol == FamilyColumn(b, n, 2, rowNum) && boxCol == FamilyColumn(b, n, 3, rowNum);
      var v := op != Remove;
      colInclusion[cellCol] := v;
      colInclusion[rowCol] := v;
      colInclusion[colCol] := v;
      colInclusion[boxCol] := v;
      assert colInclusion[..] == InclAfter(old(colInclusion[..]), lay[rowNum], v);
      Sweep(op, rowNum, cellCol, rowCol, colCol, boxCol, t);
    }
    /** removeConstraints: cover the four columns of row rowNum and clear the entries of the rows that share them. */
    method RemoveConstraints(rowNum: int, ghost t: seq<Bits>)
      requires Holds(t) && 0 <= rowNum < numRows
      modifies matrix, colSums, colInclusion
      ensures Holds(TableAfter(Remove, t, lay, rowNum))
      ensures State(TableAfter(Remove, t, lay, rowNum)) == Apply(Remove, old(State(t)), lay, rowNum)
    {
      Update(Remove, rowNum, t);
    }

    /** resetConstraintsByRow, as written: every block that finds its entry set the other three again and counts them up. */
    method ResetConstraintsByRow(rowNum: int, ghost t: seq<Bits>)
      requires Holds(t) && 0 <= rowNum < numRows
      modifies matrix, colSums, colInclusion
      ensures Holds(TableAfter(Reset, t, lay, rowNum))
      ensures State(TableAfter(Reset, t, lay, rowNum)) == Apply(Reset, old(State(t)), lay, rowNum)
    {
      Update(Reset, rowNum, t);
    }

    /** resetConstraintsByRow with its blocks as an `else if` chain, so that each row is counted up once. */
    method RestoreConstraints(rowNum: int, ghost t: seq<Bits>)
      requires Holds(t) && 0 <= rowNum < numRows
      modifies matrix, colSums, colInclusion
      ensures Holds(TableAfter(Restore, t, lay, rowNum))
      ensures State(TableAfter(Restore, t, lay, rowNum)) == Apply(Restore, old(State(t)), lay, rowNum)
    {
      Update(Restore, rowNum, t);
    }

    /** init: for every filled cell in row-major order, removeConstraints on the row of its digit. */
    method Init(grid: G.SudokuGrid, ghost t: seq<Bits>) returns (ghost t': seq<Bits>)
      requires Holds(t) && grid.Shaped() && grid.size == n
      requires Givens(grid.Values(), grid.digits, n)
      modifies matrix, colSums, colInclusion
      ensures Holds(t') && State(t') == InitFrom(old(State(t)), lay, grid.Values(), grid.digits, n, 0, 0)
    {
      ghost var target := InitFrom(State(t), lay, grid.Values(), grid.digits, n, 0, 0);
      var gridSize := grid.GetSize();
      t' := t;
      var row := 0;
      while row < gridSize
        invariant 0 <= row <= gridSize
        invariant Holds(t') && InitFrom(State(t'), lay, grid.Values(), grid.digits, n, row, 0) == target
      {
        t' := InitRow(grid, row, t');
        row := row + 1;
      }
    }

    /** The inner loop of init, over the cells of one grid row. */
    method InitRow(grid: G.SudokuGrid, row: int, ghost t: seq<Bits>) returns (ghost t': seq<Bits>)
      requires Holds(t) && grid.Shaped() && grid.size == n && 0 <= row < n
      requires Givens(grid.Values(), grid.digits, n)
      modifies matrix, colSums, colInclusion
      ensures Holds(t')
      ensures InitFrom(State(t'), lay, grid.Values(), grid.digits, n, row + 1, 0) ==
        InitFrom(old(State(t)), lay, grid.Values(), grid.digits, n, row, 0)
    {
      ghost var v := grid.Values();
      ghost var target := InitFrom(State(t), lay, v, grid.digits, n, row, 0);
      var gridSize := grid.GetSize();
      t' := t;
      var col := 0;
      while col < gridSize
        invariant 0 <= col <= gridSize
        invariant Holds(t') && InitFrom(State(t'), lay, v, grid.digits, n, row, col) == target
      {
        var value := grid.GetCellValue(row, col);
        if value != 0 {
          var position := grid.GetDigitPosition(value);
          DecodeRowId(n, row, col, position);
          var rowNum := gridSize * gridSize * row + gridSize * col + position;
          RowIdShape(n, row, col, position);
          RemoveConstraints(rowNum, t');
          t' := TableAfter(Remove, t', lay, rowNum);
        }
        col := col + 1;
      }
    }
  }
}
