/**
 * The Killer Sudoku grid: an n-by-n array of cell values (0 for an empty
 * cell), the alphabet of n digits, and the cages, each a list of cells with a
 * target sum.  The methods are the grid's operations; each is proved against
 * the predicates and functions of KillerRules on the array's contents.
 */
module KillerGrid {
  import opened Cells
  import opened KillerRules
  import Layout
  import Alphabet
  import opened Combinations

  /** The values of row r of a grid array. */
  ghost function RowOf(grid: array2<int>, r: int): (vals: seq<int>)
    requires 0 <= r < grid.Length0
    reads grid
    ensures |vals| == grid.Length1
    ensures forall c :: 0 <= c < grid.Length1 ==> vals[c] == grid[r, c]
  {
    seq(grid.Length1, c requires 0 <= c < grid.Length1 reads grid => grid[r, c])
  }

  lemma RowOfValues(grid: array2<int>, r: int)
    requires 0 <= r < grid.Length0
    ensures RowOf(grid, r) == Snapshot(grid)[r]
  {
  }

  /** One pass of toString's inner loop: the cell's text, then its separator. */
  method AppendCell(prefix: string, x: int, c: int, n: int) returns (outString: string)
    ensures outString == prefix + (CellText(x) + Separator(c, n))
  {
    outString := prefix + CellText(x);
    outString := outString + Separator(c, n);
    AppendAssoc(prefix, CellText(x), Separator(c, n));
  }

  /** One pass of toString's outer loop: the cells of row r appended to prefix. */
  method AppendRow(grid: array2<int>, r: int, prefix: string) returns (outString: string)
    requires 0 <= r < grid.Length0
    ensures outString == prefix + LineText(RowOf(grid, r))
  {
    ghost var vals := RowOf(grid, r);
    ghost var pieces := CellPieces(vals);
    var n := grid.Length1;
    outString := prefix;
    var col := 0;
    while col < n
      invariant 0 <= col <= n
      invariant outString == prefix + Concat(pieces, col)
    {
      var cellValue := grid[r, col];
      assert cellValue == vals[col];
      outString := AppendCell(outString, cellValue, col, n);
      ConcatStep(pieces, col);
      AppendAssoc(prefix, Concat(pieces, col), pieces[col]);
      col := col + 1;
    }
  }

  lemma ListAssoc(a: seq<seq<int>>, b: seq<seq<int>>, c: seq<seq<int>>)
    ensures (a + b) + c == a + (b + c)
  {
  }

  /** A growable list of integers, appended to and trimmed at the end. */
  class IntList {
    var items: seq<int>

    constructor ()
      ensures items == []
    {
      items := [];
    }

    method Add(x: int)
      modifies this
      ensures items == old(items) + [x]
    {
      items := items + [x];
    }

    method RemoveLast()
      requires |items| > 0
      modifies this
      ensures items == old(items)[..|old(items)| - 1]
    {
      items := items[..|items| - 1];
    }
  }

  /** A cage: its cells in insertion order, its target sum and the digit combinations recorded for it. */
  class Cage {
    const cells: seq<Coord>
    const targetValue: int
    var combinations: seq<seq<int>>

    constructor (targetValue: int, cells: seq<Coord>)
      ensures this.targetValue == targetValue && this.cells == cells
      ensures combinations == []
    {
      this.targetValue := targetValue;
      this.cells := cells;
      combinations := [];
    }

    /** The cage as the rules see it. */
    function Spec(): (s: CageSpec)
      ensures s.cells == cells && s.target == targetValue
    {
      CageSpec(cells, targetValue)
    }

    /** The values of the cage's cells in grid, in list order. */
    ghost function Contents(grid: array2<int>): (vals: seq<int>)
      requires grid.Length0 == grid.Length1 && InGrid(cells, grid.Length0)
      reads grid
      ensures |vals| == |cells|
      ensures forall i :: 0 <= i < |cells| ==> vals[i] == grid[cells[i].0, cells[i].1]
    {
      seq(|cells|, i requires 0 <= i < |cells| reads grid => grid[cells[i].0, cells[i].1])
    }

    /** The cage's values read from the array are its values in the array's contents. */
    lemma ContentsOfSnapshot(grid: array2<int>)
      requires grid.Length0 == grid.Length1 && InGrid(cells, grid.Length0)
      ensures Contents(grid) == CellValues(Snapshot(grid), grid.Length0, cells)
    {
    }

    /**
     * isValid: scans the cells in order, skipping empty ones; a filled value
     * seen before, or a running sum above the target, makes the cage invalid.
     */
    method IsValid(grid: array2<int>) returns (ok: bool)
      requires grid.Length0 == grid.Length1 && InGrid(cells, grid.Length0)
      ensures ok == CageValid(Contents(grid), targetValue)
    {
      ghost var vals := Contents(grid);
      var sum := 0;
      var digits: set<int> := {};
      var i := 0;
      while i < |cells|
        invariant 0 <= i <= |cells|
        invariant digits == NonzeroBelow(vals, i) && NoRepeatBelow(vals, i)
        invariant sum == SumBelow(vals, i) && SumsWithinBelow(vals, targetValue, i)
      {
        var value := grid[cells[i].0, cells[i].1];
        ScanStep(vals, i);
        SumScanStep(vals, targetValue, i);
        if value != 0 {
          if value in digits {
            return false;
          }
          digits := digits + {value};
          sum := sum + value;
          if sum > targetValue {
            return false;
          }
        }
        i := i + 1;
      }
      return true;
    }

    /**
     * isComplete: every cell value, empty ones included, differs from the
     * ones before it, and the values add up to the target.
     */
    method IsComplete(grid: array2<int>) returns (ok: bool)
      requires grid.Length0 == grid.Length1 && InGrid(cells, grid.Length0)
      ensures ok == CageComplete(Contents(grid), targetValue)
    {
      ghost var vals := Contents(grid);
      var sum := 0;
      var digits: set<int> := {};
      var i := 0;
      while i < |cells|
        invariant 0 <= i <= |cells|
        invariant digits == ValuesBelow(vals, i) && DistinctBelow(vals, i)
        invariant sum == SumBelow(vals, i)
      {
        var value := grid[cells[i].0, cells[i].1];
        DistinctStep(vals, i);
        if value in digits {
          return false;
        }
        digits := digits + {value};
        sum := sum + value;
        i := i + 1;
      }
      if sum != targetValue {
        return false;
      }
      return true;
    }

    /**
     * findCominations: records partialSol whenever the running sum startVal
     * reaches target, then tries each digit from startIndex on, appending it,
     * recursing with the next start index that rule gives, and removing it
     * again.  The combinations recorded are the partial solution followed by
     * the digits at the position lists Recorded enumerates.
     */
    method FindCominations(rule: StartRule, digits: seq<int>, partialSol: IntList, target: int, startVal: int, startIndex: int)
      requires startIndex >= 0
      modifies this, partialSol
      ensures partialSol.items == old(partialSol.items)
      ensures combinations == old(combinations) + Found(rule, digits, target, startVal, startIndex, old(partialSol.items))
      decreases Remaining(|digits|, startIndex)
    {
      ghost var partial := partialSol.items;
      ghost var head: seq<seq<int>> := if startVal == target then [partial] else [];
      if startVal == target {
        combinations := combinations + [partialSol.items];
      }
      ghost var before := combinations;
      if startIndex < |digits| {
        var i := startIndex;
        while i < |digits|
          invariant startIndex <= i <= |digits|
          invariant partialSol.items == partial
          invariant combinations == before + FoundBetween(rule, digits, target, startVal, startIndex, i, partial)
        {
          ghost var done := FoundBetween(rule, digits, target, startVal, startIndex, i, partial);
          var next := NextStart(rule, startIndex, i);
          partialSol.Add(digits[i]);
          ghost var extended := partialSol.items;
          FindCominations(rule, digits, partialSol, target, startVal + digits[i], next);
          ghost var found := Found(rule, digits, target, startVal + digits[i], next, extended);
          partialSol.RemoveLast();
          assert partialSol.items == extended[..|partial|] == partial;
          ListAssoc(before, done, found);
          i := i + 1;
        }
        ListAssoc(old(combinations), head, FoundBetween(rule, digits, target, startVal, startIndex, |digits|, partial));
      } else {
        assert head + [] == head;
      }
    }
  }

  /**
   * The Killer Sudoku grid of size n = b*b.  The array holds the cell values;
   * each cell belongs to the cages that list it.
   */
  class KillerSudokuGrid {
    const gridDimensions: int
    const boxSize: int
    const digits: seq<int>
    const cages: seq<Cage>
    const grid: array2<int>

    /** The grid is n-by-n, the alphabet has n nonzero digits and every cage lies in the grid. */
    ghost predicate Shaped()
    {
      grid.Length0 == gridDimensions && grid.Length1 == gridDimensions &&
      |digits| == gridDimensions && (forall p :: 0 <= p < |digits| ==> digits[p] != 0) &&
      CagesInGrid(Specs(), gridDimensions)
    }

    /** Shaped, and n is the square of the box size. */
    ghost predicate Valid()
    {
      Layout.IsDims(boxSize, gridDimensions) && Shaped()
    }

    /** The cages as the rules see them. */
    function Specs(): (specs: seq<CageSpec>)
      ensures |specs| == |cages|
      ensures forall k :: 0 <= k < |cages| ==> specs[k] == CageSpec(cages[k].cells, cages[k].targetValue)
    {
      seq(|cages|, k requires 0 <= k < |cages| => cages[k].Spec())
    }

    /** The cell values, row by row. */
    function Values(): Values
      reads grid
    {
      Snapshot(grid)
    }

    /** A grid with every cell empty (the state before any cell is set). */
    constructor (boxSize: int, digits: seq<int>, cages: seq<Cage>)
      requires boxSize >= 1 && |digits| == boxSize * boxSize
      requires forall p :: 0 <= p < |digits| ==> digits[p] != 0
      requires forall k :: 0 <= k < |cages| ==> InGrid(cages[k].cells, boxSize * boxSize)
      ensures this.boxSize == boxSize && this.digits == digits && this.cages == cages
      ensures Valid() && fresh(grid)
      ensures forall r, c :: 0 <= r < gridDimensions && 0 <= c < gridDimensions ==> Values()[r][c] == 0
    {
      this.boxSize := boxSize;
      gridDimensions := boxSize * boxSize;
      this.digits := digits;
      this.cages := cages;
      grid := new int[boxSize * boxSize, boxSize * boxSize]((r, c) => 0);
    }

    /** getCellValue. */
    method GetCellValue(row: int, col: int) returns (value: int)
      requires Shaped() && 0 <= row < gridDimensions && 0 <= col < gridDimensions
      ensures value == Values()[row][col]
    {
      value := grid[row, col];
    }

    /** setCell: position -1 empties the cell, any other position writes the digit at that position. */
    method SetCell(row: int, col: int, value: int)
      requires Shaped() && 0 <= row < gridDimensions && 0 <= col < gridDimensions
      requires value == -1 || 0 <= value < |digits|
      modifies grid
      ensures Values() == Place(old(Values()), row, col, if value == -1 then 0 else digits[value])
    {
      if value == -1 {
        grid[row, col] := 0;
      } else {
        grid[row, col] := digits[value];
      }
      SameGrid(Values(), Place(old(Values()), row, col, grid[row, col]), gridDimensions);
    }

    /** getDigitPosition: the first position of digit in the alphabet, or -1. */
    method GetDigitPosition(digit: int) returns (position: int)
      requires Shaped()
      ensures position == Alphabet.DigitPosition(digits, digit)
    {
      position := 0;
      while position < gridDimensions
        invariant 0 <= position <= gridDimensions
        invariant forall q :: 0 <= q < position ==> digits[q] != digit
      {
        if digits[position] == digit {
          return position;
        }
        position := position + 1;
      }
      return -1;
    }

    /** validate: no filled value repeats in a row, a column or a box, and every cage is valid. */
    method Validate() returns (ok: bool)
      requires Valid()
      ensures ok == GridValid(Values(), boxSize, gridDimensions, Specs())
    {
      var rows := CheckRows();
      if !rows {
        return false;
      }
      var cols := CheckCols();
      if !cols {
        return false;
      }
      var boxes := CheckBoxes();
      if !boxes {
        return false;
      }
      ok := CheckCages();
    }

    /** The row pass of validate. */
    method CheckRows() returns (ok: bool)
      requires Shaped()
      ensures ok == RowsOk(Values(), gridDimensions)
    {
      ghost var v := Values();
      var n := gridDimensions;
      var row := 0;
      while row < n
        invariant 0 <= row <= n
        invariant forall r :: 0 <= r < row ==> NoRepeatedNonzero(v[r])
      {
        var checker: set<int> := {};
        var col := 0;
        while col < n
          invariant 0 <= col <= n
          invariant checker == NonzeroBelow(v[row], col) && NoRepeatBelow(v[row], col)
        {
          var cellValue := grid[row, col];
          ScanStep(v[row], col);
          if cellValue != 0 {
            if cellValue in checker {
              return false;
            }
            checker := checker + {cellValue};
          }
          col := col + 1;
        }
        row := row + 1;
      }
      return true;
    }

    /** The column pass of validate. */
    method CheckCols() returns (ok: bool)
      requires Shaped()
      ensures ok == ColsOk(Values(), gridDimensions)
    {
      ghost var v := Values();
      var n := gridDimensions;
      var col := 0;
      while col < n
        invariant 0 <= col <= n
        invariant forall c :: 0 <= c < col ==> NoRepeatedNonzero(Column(v, n, c))
      {
        ghost var line := Column(v, n, col);
        var checker: set<int> := {};
        var row := 0;
        while row < n
          invariant 0 <= row <= n
          invariant checker == NonzeroBelow(line, row) && NoRepeatBelow(line, row)
        {
          var cellValue := grid[row, col];
          ScanStep(line, row);
          if cellValue != 0 {
            if cellValue in checker {
              return false;
            }
            checker := checker + {cellValue};
          }
          row := row + 1;
        }
        col := col + 1;
      }
      return true;
    }

    /**
     * The box pass of validate: box origins step by b along rows and then
     * columns.  The box with origin (b*br, b*bc) is box (br, bc).
     */
    method CheckBoxes() returns (ok: bool)
      requires Valid()
      ensures ok == BoxesOk(Values(), boxSize, gridDimensions)
    {
      var n, b := gridDimensions, boxSize;
      var boxStartRow := 0;
      ghost var br := 0;
      while boxStartRow < n
        invariant 0 <= br <= b && boxStartRow == b * br
        invariant forall br', bc' :: 0 <= br' < br && 0 <= bc' < b ==> BoxOk(Values(), b, n, br', bc')
      {
        Layout.BoxStart(b, n, br);
        var boxStartCol := 0;
        ghost var bc := 0;
        while boxStartCol < n
          invariant 0 <= bc <= b && boxStartCol == b * bc
          invariant forall br', bc' :: 0 <= br' < br && 0 <= bc' < b ==> BoxOk(Values(), b, n, br', bc')
          invariant forall bc' :: 0 <= bc' < bc ==> BoxOk(Values(), b, n, br, bc')
        {
          Layout.BoxStart(b, n, bc);
          var boxOk := CheckBox(boxStartRow, boxStartCol, br, bc);
          if !boxOk {
            return false;
          }
          boxStartCol := boxStartCol + b;
          bc := bc + 1;
        }
        Layout.BoxStart(b, n, bc);
        boxStartRow := boxStartRow + b;
        br := br + 1;
      }
      Layout.BoxStart(b, n, br);
      return true;
    }

    /** The body of the box pass for one box: its cells c rows down and d columns across the origin, c by c, d by d. */
    method CheckBox(boxStartRow: int, boxStartCol: int, ghost br: int, ghost bc: int) returns (ok: bool)
      requires Valid() && 0 <= br < boxSize && 0 <= bc < boxSize
      requires boxStartRow == boxSize * br && boxStartCol == boxSize * bc
      ensures ok == BoxOk(Values(), boxSize, gridDimensions, br, bc)
    {
      ghost var v := Values();
      var n, b := gridDimensions, boxSize;
      var checker: set<int> := {};
      var c := 0;
      while c < b
        invariant 0 <= c <= b
        invariant checker == BoxSeen(v, b, n, br, bc, c, 0) && BoxNoRepeatBefore(v, b, n, br, bc, c, 0)
      {
        var d := 0;
        while d < b
          invariant 0 <= d <= b
          invariant checker == BoxSeen(v, b, n, br, bc, c, d) && BoxNoRepeatBefore(v, b, n, br, bc, c, d)
        {
          Layout.BlockPart(b, n, br, c);
          Layout.BlockPart(b, n, bc, d);
          var cellValue := grid[boxStartRow + c, boxStartCol + d];
          assert cellValue == BoxCell(v, b, n, br, bc, c, d);
          BoxScanStep(v, b, n, br, bc, c, d);
          if cellValue != 0 {
            if cellValue in checker {
              return false;
            }
            checker := checker + {cellValue};
          }
          d := d + 1;
        }
        BoxRowEnd(v, b, n, br, bc, c);
        c := c + 1;
      }
      return true;
    }

    /** The cage pass of validate. */
    method CheckCages() returns (ok: bool)
      requires Shaped()
      ensures ok == forall k :: 0 <= k < |cages| ==>
                CageValid(CellValues(Values(), gridDimensions, cages[k].cells), cages[k].targetValue)
    {
      var k := 0;
      while k < |cages|
        invariant 0 <= k <= |cages|
        invariant forall k' :: 0 <= k' < k ==>
                    CageValid(CellValues(Values(), gridDimensions, cages[k'].cells), cages[k'].targetValue)
      {
        assert Specs()[k] == CageSpec(cages[k].cells, cages[k].targetValue);
        var cageOk := cages[k].IsValid(grid);
        cages[k].ContentsOfSnapshot(grid);
        if !cageOk {
          return false;
        }
        k := k + 1;
      }
      return true;
    }

    /** checkComplete: no cell is empty and every cage is complete. */
    method CheckComplete() returns (ok: bool)
      requires Shaped()
      ensures ok == GridComplete(Values(), gridDimensions, Specs())
    {
      ghost var v := Values();
      var n := gridDimensions;
      var row := 0;
      while row < n
        invariant 0 <= row <= n
        invariant forall r, c :: 0 <= r < row && 0 <= c < n ==> v[r][c] != 0
      {
        var col := 0;
        while col < n
          invariant 0 <= col <= n
          invariant forall r, c :: 0 <= r < row && 0 <= c < n ==> v[r][c] != 0
          invariant forall c :: 0 <= c < col ==> v[row][c] != 0
        {
          if grid[row, col] == 0 {
            return false;
          }
          col := col + 1;
        }
        row := row + 1;
      }
      var k := 0;
      while k < |cages|
        invariant 0 <= k <= |cages|
        invariant forall k' :: 0 <= k' < k ==>
                    CageComplete(CellValues(v, n, cages[k'].cells), cages[k'].targetValue)
      {
        assert Specs()[k] == CageSpec(cages[k].cells, cages[k].targetValue);
        var cageOk := cages[k].IsComplete(grid);
        cages[k].ContentsOfSnapshot(grid);
        if !cageOk {
          return false;
        }
        k := k + 1;
      }
      return true;
    }

    /**
     * toString: the rows in order, each cell as its number (a space when
     * empty) followed by a comma, the last cell of a row by a newline.
     */
    method ToString() returns (outString: string)
      requires Shaped()
      ensures outString == Render(Values())
    {
      ghost var lines := Lines(Values());
      outString := "";
      var row := 0;
      while row < gridDimensions
        invariant 0 <= row <= gridDimensions
        invariant outString == Concat(lines, row)
      {
        outString := AppendRow(grid, row, outString);
        RowOfValues(grid, row);
        ConcatStep(lines, row);
        row := row + 1;
      }
    }
  }
}
