/**
 * The standard Sudoku grid as the solvers see it, through the abstract
 * grid interface: getSize, getCellValue, getDigitPosition, setCell,
 * validate and checkComplete.  The grid's own validate and checkComplete
 * are not part of this model; they are the grid's rules, arbitrary
 * predicates on its values.
 */
module StdGrid {
  import opened Cells
  import opened Backtracking
  import Alpha = Alphabet
  import Layout

  /** A Sudoku grid seen through the abstract grid interface. */
  class SudokuGrid {
    const size: int
    const boxSize: int
    const digits: seq<int>
    const rules: Rules
    const cells: array2<int>

    /** The array is size-by-size and the alphabet has size nonzero digits. */
    ghost predicate Shaped()
    {
      cells.Length0 == size && cells.Length1 == size && DigitSet(digits, size)
    }

    /** Shaped, and the boxes are boxSize by boxSize with size == boxSize * boxSize. */
    ghost predicate Valid()
    {
      Shaped() && Layout.IsDims(boxSize, size)
    }

    /** The cell values, row by row. */
    function Values(): Values
      reads cells
    {
      Snapshot(cells)
    }

    constructor (digits: seq<int>, boxSize: int, rules: Rules)
      requires forall p :: 0 <= p < |digits| ==> digits[p] != 0
      ensures this.digits == digits && this.boxSize == boxSize && this.rules == rules && size == |digits|
      ensures Shaped() && fresh(cells)
      ensures Layout.IsDims(boxSize, |digits|) ==> Valid()
      ensures forall r, c :: 0 <= r < size && 0 <= c < size ==> Values()[r][c] == 0
    {
      size := |digits|;
      this.boxSize := boxSize;
      this.digits := digits;
      this.rules := rules;
      cells := new int[|digits|, |digits|]((r, c) => 0);
    }

    /** getSize. */
    method GetSize() returns (n: int)
      ensures n == size
    {
      n := size;
    }

    /** getCellValue. */
    method GetCellValue(row: int, col: int) returns (value: int)
      requires Shaped() && 0 <= row < size && 0 <= col < size
      ensures value == Values()[row][col]
    {
      value := cells[row, col];
    }

    /** setCell: position -1 empties the cell, any other position writes the digit at that position. */
    method SetCell(row: int, col: int, value: int)
      requires Shaped() && 0 <= row < size && 0 <= col < size
      requires value == -1 || 0 <= value < |digits|
      modifies cells
      ensures Values() == Place(old(Values()), row, col, if value == -1 then 0 else digits[value])
    {
      if value == -1 {
        cells[row, col] := 0;
      } else {
        cells[row, col] := digits[value];
      }
      SameGrid(Values(), Place(old(Values()), row, col, cells[row, col]), size);
    }

    /** getDigitPosition: the first position of digit in the alphabet, or -1. */
    method GetDigitPosition(digit: int) returns (position: int)
      requires Shaped()
      ensures position == Alpha.DigitPosition(digits, digit)
    {
      position := 0;
      while position < size
        invariant 0 <= position <= size
        invariant forall q :: 0 <= q < position ==> digits[q] != digit
      {
        if digits[position] == digit {
          return position;
        }
        position := position + 1;
      }
      return -1;
    }

    /** validate. */
    method Validate() returns (ok: bool)
      ensures ok == rules.valid(Values())
    {
      ok := rules.valid(Values());
    }

    /** checkComplete. */
    method CheckComplete() returns (ok: bool)
      ensures ok == rules.complete(Values())
    {
      ok := rules.complete(Values());
    }
  }
}
