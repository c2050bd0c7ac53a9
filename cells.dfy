/**
 * Grid contents as values: a square table of cell values, 0 meaning an empty
 * cell.  Both solvers' grids are read through this view.
 */
module Cells {
  import Layout
  import Alphabet

  type Values = seq<seq<int>>

  /** v is an n-by-n table. */
  predicate IsGrid(v: Values, n: int)
  {
    |v| == n && forall r :: 0 <= r < n ==> |v[r]| == n
  }

  /** v with cell (r, c) set to x. */
  function Place(v: Values, r: int, c: int, x: int): (w: Values)
    requires 0 <= r < |v| && 0 <= c < |v[r]|
    ensures |w| == |v| && forall r' :: 0 <= r' < |v| ==> |w[r']| == |v[r']|
    ensures w[r][c] == x
    ensures forall r', c' :: 0 <= r' < |v| && 0 <= c' < |v[r']| && (r', c') != (r, c) ==> w[r'][c'] == v[r'][c']
  {
    v[r := v[r][c := x]]
  }

  /** Setting a cell twice keeps only the second value. */
  lemma PlaceTwice(v: Values, r: int, c: int, x: int, y: int)
    requires 0 <= r < |v| && 0 <= c < |v[r]|
    ensures Place(Place(v, r, c, x), r, c, y) == Place(v, r, c, y)
  {
    assert v[r][c := x][c := y] == v[r][c := y];
  }

  /** Setting a cell to the value it holds changes nothing. */
  lemma PlaceSame(v: Values, r: int, c: int)
    requires 0 <= r < |v| && 0 <= c < |v[r]|
    ensures Place(v, r, c, v[r][c]) == v
  {
    assert v[r][c := v[r][c]] == v[r];
  }

  /** The first k cells of row r of a two-dimensional array. */
  function RowPrefix(a: array2<int>, r: int, k: int): (row: seq<int>)
    requires 0 <= r < a.Length0 && 0 <= k <= a.Length1
    reads a
    ensures |row| == k && forall c :: 0 <= c < k ==> row[c] == a[r, c]
    decreases k
  {
    if k == 0 then [] else RowPrefix(a, r, k - 1) + [a[r, k - 1]]
  }

  /** The first k rows of a two-dimensional array. */
  function RowsPrefix(a: array2<int>, k: int): (v: Values)
    requires 0 <= k <= a.Length0
    reads a
    ensures |v| == k && forall r :: 0 <= r < k ==> v[r] == RowPrefix(a, r, a.Length1)
    decreases k
  {
    if k == 0 then [] else RowsPrefix(a, k - 1) + [RowPrefix(a, k - 1, a.Length1)]
  }

  /** The contents of a two-dimensional array, row by row. */
  function Snapshot(a: array2<int>): (v: Values)
    reads a
    ensures |v| == a.Length0
    ensures forall r :: 0 <= r < a.Length0 ==> |v[r]| == a.Length1
    ensures forall r, c :: 0 <= r < a.Length0 && 0 <= c < a.Length1 ==> v[r][c] == a[r, c]
  {
    RowsPrefix(a, a.Length0)
  }

  /** Two n-by-n tables that agree cell by cell are equal. */
  lemma SameGrid(v: Values, w: Values, n: int)
    requires IsGrid(v, n) && IsGrid(w, n)
    requires forall r, c :: 0 <= r < n && 0 <= c < n ==> v[r][c] == w[r][c]
    ensures v == w
  {
    forall r | 0 <= r < n
      ensures v[r] == w[r]
    {
      assert forall c :: 0 <= c < n ==> v[r][c] == w[r][c];
    }
  }

  /** The grid after matrix row x's digit is written into its cell. */
  function Write(v: Values, digits: seq<int>, n: int, x: int): (w: Values)
    requires IsGrid(v, n) && |digits| == n && n > 0 && 0 <= x < n * n * n
    ensures IsGrid(w, n)
    ensures 0 <= Layout.GridRow(n, x) < n && 0 <= Layout.GridCol(n, x) < n && 0 <= Layout.GridDigit(n, x) < n
    ensures w[Layout.GridRow(n, x)][Layout.GridCol(n, x)] == digits[Layout.GridDigit(n, x)]
    ensures forall r, c :: 0 <= r < n && 0 <= c < n && (r, c) != (Layout.GridRow(n, x), Layout.GridCol(n, x)) ==> w[r][c] == v[r][c]
  {
    Layout.DecodeBounds(n, x);
    Place(v, Layout.GridRow(n, x), Layout.GridCol(n, x), digits[Layout.GridDigit(n, x)])
  }

  /** The grid after matrix row x's cell is emptied again. */
  function Erase(v: Values, n: int, x: int): (w: Values)
    requires IsGrid(v, n) && n > 0 && 0 <= x < n * n * n
    ensures IsGrid(w, n)
    ensures 0 <= Layout.GridRow(n, x) < n && 0 <= Layout.GridCol(n, x) < n && w[Layout.GridRow(n, x)][Layout.GridCol(n, x)] == 0
    ensures forall r, c :: 0 <= r < n && 0 <= c < n && (r, c) != (Layout.GridRow(n, x), Layout.GridCol(n, x)) ==> w[r][c] == v[r][c]
  {
    Layout.DecodeBounds(n, x);
    Place(v, Layout.GridRow(n, x), Layout.GridCol(n, x), 0)
  }

  /** The alphabet: n distinct nonzero digits. */
  predicate Digits(digits: seq<int>, n: int)
  {
    |digits| == n && Alphabet.Distinct(digits) && forall p :: 0 <= p < n ==> digits[p] != 0
  }

  /** Every cell is empty or holds a digit of the alphabet. */
  predicate Givens(v: Values, digits: seq<int>, n: int)
    requires IsGrid(v, n)
  {
    forall r, c :: 0 <= r < n && 0 <= c < n ==> v[r][c] == 0 || v[r][c] in digits
  }

  /** w agrees with every filled cell of v (both n-by-n). */
  predicate Extends(w: Values, v: Values, n: int)
  {
    IsGrid(v, n) && IsGrid(w, n) &&
    forall r, c :: 0 <= r < n && 0 <= c < n && v[r][c] != 0 ==> w[r][c] == v[r][c]
  }

  /** Number of empty cells in the first k cells of row-major order of an n-by-n table. */
  function EmptyCount(v: Values, n: int, rows: int): nat
    requires IsGrid(v, n) && rows <= n
    decreases rows
  {
    if rows <= 0 then 0 else EmptyCount(v, n, rows - 1) + EmptyInRow(v[rows - 1], n)
  }

  /** Number of empty cells among the first k cells of a row. */
  function EmptyInRow(row: seq<int>, k: int): nat
    requires k <= |row|
    decreases k
  {
    if k <= 0 then 0 else EmptyInRow(row, k - 1) + (if row[k - 1] == 0 then 1 else 0)
  }

  /** Filling one empty cell of a row lowers its empty count by one. */
  lemma {:induction false} EmptyInRowPlace(row: seq<int>, k: int, c: int, x: int)
    requires 0 <= c < |row| && k <= |row| && row[c] == 0 && x != 0
    ensures EmptyInRow(row[c := x], k) == EmptyInRow(row, k) - (if c < k then 1 else 0)
    decreases k
  {
    if k > 0 {
      EmptyInRowPlace(row, k - 1, c, x);
    }
  }

  /** Filling one empty cell of a table lowers its empty count by one. */
  lemma {:induction false} EmptyCountPlace(v: Values, n: int, rows: int, r: int, c: int, x: int)
    requires IsGrid(v, n) && 0 <= r < n && 0 <= c < n && rows <= n && v[r][c] == 0 && x != 0
    ensures IsGrid(Place(v, r, c, x), n)
    ensures EmptyCount(Place(v, r, c, x), n, rows) == EmptyCount(v, n, rows) - (if r < rows then 1 else 0)
    decreases rows
  {
    if rows > 0 {
      EmptyCountPlace(v, n, rows - 1, r, c, x);
      if rows - 1 == r {
        EmptyInRowPlace(v[r], n, c, x);
      }
    }
  }

  /** A row with no empty cell among its first k has empty count 0, and conversely. */
  lemma {:induction false} EmptyInRowZero(row: seq<int>, k: int)
    requires 0 <= k <= |row|
    ensures EmptyInRow(row, k) == 0 <==> forall c :: 0 <= c < k ==> row[c] != 0
    decreases k
  {
    if k > 0 {
      EmptyInRowZero(row, k - 1);
    }
  }

  /** A table has empty count 0 exactly when none of its cells is empty. */
  lemma {:induction false} EmptyCountZero(v: Values, n: int, rows: int)
    requires IsGrid(v, n) && 0 <= rows <= n
    ensures EmptyCount(v, n, rows) == 0 <==> forall r, c :: 0 <= r < rows && 0 <= c < n ==> v[r][c] != 0
    decreases rows
  {
    if rows > 0 {
      EmptyCountZero(v, n, rows - 1);
      EmptyInRowZero(v[rows - 1], n);
    }
  }
}
