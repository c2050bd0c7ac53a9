/**
 * What the Algorithm X solver's answer means for the grid.
 *
 * A matrix row is placed in a grid when its digit stands in its cell.  The
 * search keeps the column flags in step with the grid: a column is still
 * included exactly when none of its member rows is placed, and no column
 * has two placed rows.  When the search succeeds every column has exactly
 * one placed row, which makes the grid a Sudoku solution; when it fails
 * the grid is as it was.
 */
module AlgorXCover {
  import opened Layout
  import opened Cells
  import opened AlgorXModel
  import opened AlgorXSearch
  import Alpha = Alphabet

  /** Member t of column j is a matrix row. */
  lemma MemberBound(b: int, n: int, j: int, t: int)
    requires IsDims(b, n) && 0 <= j < 4 * n * n && 0 <= t < n
    ensures 0 <= MemberRow(b, n, j, t) < n * n * n
  {
    ColumnSplit(n, j);
    MemberRowParts(b, n, j / (n * n), (j % (n * n)) / n, j % n, t);
  }

  /** Matrix row x's digit stands in its cell. */
  predicate Placed(v: Values, digits: seq<int>, n: int, x: int)
    requires IsGrid(v, n) && |digits| == n && n > 0 && 0 <= x < n * n * n
  {
    DecodeBounds(n, x);
    v[GridRow(n, x)][GridCol(n, x)] == digits[GridDigit(n, x)]
  }

  /** Member t of column j is placed. */
  predicate MemberPlaced(v: Values, digits: seq<int>, b: int, n: int, j: int, t: int)
    requires IsDims(b, n) && IsGrid(v, n) && |digits| == n && 0 <= j < 4 * n * n && 0 <= t < n
  {
    MemberBound(b, n, j, t);
    Placed(v, digits, n, MemberRow(b, n, j, t))
  }

  /** The number of placed rows among members 0 .. m-1 of column j. */
  function PlacedIn(v: Values, digits: seq<int>, b: int, n: int, j: int, m: int): nat
    requires IsDims(b, n) && IsGrid(v, n) && |digits| == n && 0 <= j < 4 * n * n && 0 <= m <= n
    decreases m
  {
    if m == 0 then 0
    else
      PlacedIn(v, digits, b, n, j, m - 1) + if MemberPlaced(v, digits, b, n, j, m - 1) then 1 else 0
  }

  /** The number of placed rows of column j. */
  function Count(v: Values, digits: seq<int>, b: int, n: int, j: int): nat
    requires IsDims(b, n) && IsGrid(v, n) && |digits| == n && 0 <= j < 4 * n * n
  {
    PlacedIn(v, digits, b, n, j, n)
  }

  /** A placed member counts: one placed member gives at least one, two distinct ones at least two. */
  lemma {:induction false} PlacedInAtLeast(v: Values, digits: seq<int>, b: int, n: int, j: int, m: int, t: int, t': int)
    requires IsDims(b, n) && IsGrid(v, n) && |digits| == n && 0 <= j < 4 * n * n && 0 <= m <= n
    requires 0 <= t <= t' < m
    requires MemberPlaced(v, digits, b, n, j, t) && MemberPlaced(v, digits, b, n, j, t')
    ensures PlacedIn(v, digits, b, n, j, m) >= if t == t' then 1 else 2
    decreases m
  {
    if t' < m - 1 {
      PlacedInAtLeast(v, digits, b, n, j, m - 1, t, t');
    } else if t < t' {
      PlacedInAtLeast(v, digits, b, n, j, m - 1, t, t);
    }
  }

  /** Matrix row x's cell is empty in v. */
  predicate CellEmpty(v: Values, n: int, x: int)
    requires IsGrid(v, n) && n > 0 && 0 <= x < n * n * n
  {
    DecodeBounds(n, x);
    v[GridRow(n, x)][GridCol(n, x)] == 0
  }

  /** Writing row x into its empty cell places x and leaves every other row as it was. */
  lemma PlacedWrite(v: Values, digits: seq<int>, n: int, x: int, y: int)
    requires IsGrid(v, n) && Digits(digits, n) && n > 0 && 0 <= x < n * n * n && 0 <= y < n * n * n
    requires CellEmpty(v, n, x)
    ensures !(Placed(v, digits, n, y) && y == x)
    ensures Placed(Write(v, digits, n, x), digits, n, y) == (Placed(v, digits, n, y) || y == x)
  {
    EncodeDecode(n, x);
    EncodeDecode(n, y);
    if GridRow(n, y) == GridRow(n, x) && GridCol(n, y) == GridCol(n, x) && GridDigit(n, y) != GridDigit(n, x) {
      var p, q := GridDigit(n, y), GridDigit(n, x);
      assert digits[p] != digits[q] by {
        if p < q { assert digits[p] != digits[q]; } else { assert digits[q] != digits[p]; }
      }
    }
  }

  /** Writing row x into its empty cell adds x to the members of column j counted below m. */
  lemma {:induction false} PlacedInWrite(v: Values, digits: seq<int>, b: int, n: int, x: int, j: int, m: int)
    requires IsDims(b, n) && IsGrid(v, n) && Digits(digits, n) && 0 <= x < n * n * n
    requires 0 <= j < 4 * n * n && 0 <= m <= n && CellEmpty(v, n, x)
    ensures PlacedIn(Write(v, digits, n, x), digits, b, n, j, m) == PlacedIn(v, digits, b, n, j, m) + MembersAt(b, n, j, m, x)
    decreases m
  {
    if m > 0 {
      PlacedInWrite(v, digits, b, n, x, j, m - 1);
      MemberBound(b, n, j, m - 1);
      PlacedWrite(v, digits, n, x, MemberRow(b, n, j, m - 1));
    }
  }

  /** Writing row x into its empty cell adds one to the count of exactly the columns x covers. */
  lemma WriteCount(v: Values, digits: seq<int>, b: int, n: int, x: int, j: int)
    requires IsDims(b, n) && IsGrid(v, n) && Digits(digits, n) && 0 <= x < n * n * n
    requires 0 <= j < 4 * n * n && CellEmpty(v, n, x)
    ensures Count(Write(v, digits, n, x), digits, b, n, j) == Count(v, digits, b, n, j) + if Covers(b, n, x, j) then 1 else 0
  {
    PlacedInWrite(v, digits, b, n, x, j, n);
    MembersAtAtMostOne(b, n, j, n, x);
    CoversIffMember(b, n, j, x);
  }

  /** With lay the column table, row x covers j exactly when j is one of lay[x]'s columns. */
  lemma CoversLaid(lay: seq<seq<int>>, b: int, n: int, x: int, j: int)
    requires IsDims(b, n) && Laid(lay, b, n) && 0 <= x < n * n * n
    ensures Covers(b, n, x, j) <==> j in lay[x]
  {
    forall k | 0 <= k < 4
      ensures lay[x][k] == FamilyColumn(b, n, k, x)
    {
    }
  }

  /** Cell (r, c) holds digit t exactly when row RowId(r, c, t) is placed. */
  lemma PlacedCell(v: Values, digits: seq<int>, n: int, r: int, c: int, t: int)
    requires IsGrid(v, n) && |digits| == n && n > 0 && 0 <= r < n && 0 <= c < n && 0 <= t < n
    ensures 0 <= RowId(n, r, c, t) < n * n * n
    ensures Placed(v, digits, n, RowId(n, r, c, t)) <==> v[r][c] == digits[t]
  {
    DecodeRowId(n, r, c, t);
  }

  /** The cell column of (r, c) is a column. */
  lemma CellBand(n: int, r: int, c: int)
    requires 0 <= r < n && 0 <= c < n
    ensures 0 <= r * n + c < n * n <= 4 * n * n
  {
    LowPart(n, r, c);
    assert 4 * n * n == 4 * (n * n);
  }

  /** A cell with no placed row in its cell column holds no digit of the alphabet. */
  lemma NoDigitInCell(v: Values, digits: seq<int>, b: int, n: int, r: int, c: int)
    requires IsDims(b, n) && IsGrid(v, n) && |digits| == n && 0 <= r < n && 0 <= c < n
    requires (CellBand(n, r, c); Count(v, digits, b, n, r * n + c) == 0)
    ensures v[r][c] !in digits
  {
    if v[r][c] in digits {
      var t :| 0 <= t < n && digits[t] == v[r][c];
      var j := r * n + c;
      CellBand(n, r, c);
      LineMembers(b, n, r, c, t);
      assert MemberRow(b, n, j, t) == RowId(n, r, c, t);
      PlacedCell(v, digits, n, r, c, t);
      assert MemberPlaced(v, digits, b, n, j, t);
      PlacedInAtLeast(v, digits, b, n, j, n, t, t);
    }
  }

  /** A cell holding a digit has a placed row in its cell column. */
  lemma {:induction false} PlacedInWitness(v: Values, digits: seq<int>, b: int, n: int, j: int, m: int)
    requires IsDims(b, n) && IsGrid(v, n) && |digits| == n && 0 <= j < 4 * n * n && 0 <= m <= n
    requires PlacedIn(v, digits, b, n, j, m) >= 1
    ensures exists t :: 0 <= t < m && MemberPlaced(v, digits, b, n, j, t)
    decreases m
  {
    if !MemberPlaced(v, digits, b, n, j, m - 1) {
      PlacedInWitness(v, digits, b, n, j, m - 1);
    }
  }

  /** Two placed members below m when the count below m is at least two. */
  lemma {:induction false} PlacedInPair(v: Values, digits: seq<int>, b: int, n: int, j: int, m: int)
    requires IsDims(b, n) && IsGrid(v, n) && |digits| == n && 0 <= j < 4 * n * n && 0 <= m <= n
    requires PlacedIn(v, digits, b, n, j, m) >= 2
    ensures exists t, t' :: 0 <= t < t' < m && MemberPlaced(v, digits, b, n, j, t) && MemberPlaced(v, digits, b, n, j, t')
    decreases m
  {
    if MemberPlaced(v, digits, b, n, j, m - 1) {
      PlacedInWitness(v, digits, b, n, j, m - 1);
    } else {
      PlacedInPair(v, digits, b, n, j, m - 1);
    }
  }

  // ---------------------------------------------------------------------
  // Sudoku rules seen as column counts
  // ---------------------------------------------------------------------

  /** Every column has at most one placed row. */
  predicate AtMostOnce(v: Values, digits: seq<int>, b: int, n: int)
    requires IsDims(b, n) && IsGrid(v, n) && |digits| == n
  {
    forall j :: 0 <= j < 4 * n * n ==> Count(v, digits, b, n, j) <= 1
  }

  /** Every column has exactly one placed row. */
  predicate ExactCover(v: Values, digits: seq<int>, b: int, n: int)
    requires IsDims(b, n) && IsGrid(v, n) && |digits| == n
  {
    forall j :: 0 <= j < 4 * n * n ==> OnceIn(v, digits, b, n, j)
  }

  /** Column j has exactly one placed row. */
  predicate OnceIn(v: Values, digits: seq<int>, b: int, n: int, j: int)
    requires IsDims(b, n) && IsGrid(v, n) && |digits| == n && 0 <= j < 4 * n * n
  {
    Count(v, digits, b, n, j) == 1
  }

  /** An exact cover covers every column at most once. */
  lemma ExactCoverAtMostOnce(v: Values, digits: seq<int>, b: int, n: int)
    requires IsDims(b, n) && IsGrid(v, n) && |digits| == n && ExactCover(v, digits, b, n)
    ensures AtMostOnce(v, digits, b, n)
  {
    forall j | 0 <= j < 4 * n * n
      ensures Count(v, digits, b, n, j) <= 1
    {
      assert OnceIn(v, digits, b, n, j);
    }
  }

  /** Two different cells that share a row, a column or a box. */
  predicate Peers(b: int, r: int, c: int, r': int, c': int)
    requires b >= 1
  {
    (r, c) != (r', c') && (r == r' || c == c' || BoxOf(b, r, c) == BoxOf(b, r', c'))
  }

  /** No two filled peer cells hold the same value. */
  predicate Clashless(v: Values, b: int, n: int)
    requires IsDims(b, n) && IsGrid(v, n)
  {
    forall r, c, r', c' :: 0 <= r < n && 0 <= c < n && 0 <= r' < n && 0 <= c' < n && Peers(b, r, c, r', c') && v[r][c] != 0 ==> v[r][c] != v[r'][c']
  }

  /** A Sudoku solution: every cell holds a digit of the alphabet and no row, column or box repeats one. */
  predicate IsSolution(v: Values, digits: seq<int>, b: int, n: int)
    requires IsDims(b, n) && IsGrid(v, n)
  {
    (forall r, c :: 0 <= r < n && 0 <= c < n ==> v[r][c] in digits) && Clashless(v, b, n)
  }

  /** Every family column lies in [0, 4n^2). */
  lemma FamilyBound(b: int, n: int, k: int, x: int)
    requires IsDims(b, n) && 0 <= k < 4 && 0 <= x < n * n * n
    ensures 0 <= FamilyColumn(b, n, k, x) < 4 * n * n
  {
    ColumnBands(b, n, x);
  }

  /** Two distinct placed rows that share their family-k column give that column a count of two. */
  lemma Clash(v: Values, digits: seq<int>, b: int, n: int, k: int, x: int, y: int)
    requires IsDims(b, n) && IsGrid(v, n) && |digits| == n && 0 <= k < 4
    requires 0 <= x < n * n * n && 0 <= y < n * n * n && x != y
    requires FamilyColumn(b, n, k, x) == FamilyColumn(b, n, k, y)
    requires Placed(v, digits, n, x) && Placed(v, digits, n, y)
    ensures 0 <= FamilyColumn(b, n, k, x) < 4 * n * n
    ensures Count(v, digits, b, n, FamilyColumn(b, n, k, x)) >= 2
  {
    FamilyBound(b, n, k, x);
    MemberRowComplete(b, n, k, x);
    MemberRowComplete(b, n, k, y);
    var j := FamilyColumn(b, n, k, x);
    var t, t' := MemberIndex(b, n, k, x), MemberIndex(b, n, k, y);
    assert MemberPlaced(v, digits, b, n, j, t) && MemberPlaced(v, digits, b, n, j, t');
    if t < t' {
      PlacedInAtLeast(v, digits, b, n, j, n, t, t');
    } else {
      PlacedInAtLeast(v, digits, b, n, j, n, t', t);
    }
  }

  /** With at most one placed row per column, two filled cells sharing a row, a column or a box differ. */
  lemma Apart(v: Values, digits: seq<int>, b: int, n: int, r: int, c: int, r': int, c': int)
    requires IsDims(b, n) && IsGrid(v, n) && Digits(digits, n) && AtMostOnce(v, digits, b, n)
    requires 0 <= r < n && 0 <= c < n && 0 <= r' < n && 0 <= c' < n && Peers(b, r, c, r', c')
    requires v[r][c] in digits
    ensures v[r][c] != v[r'][c']
  {
    if v[r][c] == v[r'][c'] {
      var d :| 0 <= d < n && digits[d] == v[r][c];
      var x, y := RowId(n, r, c, d), RowId(n, r', c', d);
      ColumnsOfRowId(b, n, r, c, d);
      ColumnsOfRowId(b, n, r', c', d);
      DecodeRowId(n, r, c, d);
      DecodeRowId(n, r', c', d);
      PlacedCell(v, digits, n, r, c, d);
      PlacedCell(v, digits, n, r', c', d);
      var k := if r == r' then 1 else if c == c' then 2 else 3;
      Clash(v, digits, b, n, k, x, y);
      assert false;
    }
  }

  /** A cell whose cell column has a placed row holds a digit. */
  lemma CellHoldsDigit(v: Values, digits: seq<int>, b: int, n: int, r: int, c: int)
    requires IsDims(b, n) && IsGrid(v, n) && |digits| == n && 0 <= r < n && 0 <= c < n
    requires (CellBand(n, r, c); Count(v, digits, b, n, r * n + c) >= 1)
    ensures v[r][c] in digits
  {
    CellBand(n, r, c);
    var j := r * n + c;
    PlacedInWitness(v, digits, b, n, j, n);
    var t :| 0 <= t < n && MemberPlaced(v, digits, b, n, j, t);
    LineMembers(b, n, r, c, t);
    assert MemberRow(b, n, j, t) == RowId(n, r, c, t);
    PlacedCell(v, digits, n, r, c, t);
  }

  /** An exact cover of the columns is a Sudoku solution. */
  lemma ExactCoverSolution(v: Values, digits: seq<int>, b: int, n: int)
    requires IsDims(b, n) && IsGrid(v, n) && Digits(digits, n) && ExactCover(v, digits, b, n)
    ensures IsSolution(v, digits, b, n)
  {
    forall r, c | 0 <= r < n && 0 <= c < n
      ensures v[r][c] in digits
    {
      CellBand(n, r, c);
      assert OnceIn(v, digits, b, n, r * n + c);
      CellHoldsDigit(v, digits, b, n, r, c);
    }
    ExactCoverAtMostOnce(v, digits, b, n);
    forall r, c, r', c' | 0 <= r < n && 0 <= c < n && 0 <= r' < n && 0 <= c' < n && Peers(b, r, c, r', c') && v[r][c] != 0
      ensures v[r][c] != v[r'][c']
    {
      Apart(v, digits, b, n, r, c, r', c');
    }
  }

  /** Two rows sharing their family-k column agree on the two coordinates that column names. */
  lemma SameColumn(b: int, n: int, k: int, r: int, c: int, d: int, r': int, c': int, d': int)
    requires IsDims(b, n) && 0 <= k < 4
    requires 0 <= r < n && 0 <= c < n && 0 <= d < n && 0 <= r' < n && 0 <= c' < n && 0 <= d' < n
    requires FamilyColumn(b, n, k, RowId(n, r, c, d)) == FamilyColumn(b, n, k, RowId(n, r', c', d'))
    ensures k == 0 ==> r == r' && c == c'
    ensures k == 1 ==> r == r' && d == d'
    ensures k == 2 ==> c == c' && d == d'
    ensures k == 3 ==> BoxOf(b, r, c) == BoxOf(b, r', c') && d == d'
  {
    ColumnsOfRowId(b, n, r, c, d);
    ColumnsOfRowId(b, n, r', c', d');
    if k == 0 {
      SplitLow(n, r, c);
      SplitLow(n, r', c');
    } else if k == 1 {
      SplitLow(n, r, d);
      SplitLow(n, r', d');
    } else if k == 2 {
      SplitLow(n, c, d);
      SplitLow(n, c', d');
    } else {
      var q, q' := BoxOf(b, r, c), BoxOf(b, r', c');
      assert n * q == q * n && n * q' == q' * n;
      SplitLow(n, q, d);
      SplitLow(n, q', d');
    }
  }

  /** Two placed members of one column are two equal digits in peer cells. */
  lemma PairClash(v: Values, digits: seq<int>, b: int, n: int, j: int, t: int, t': int)
    requires IsDims(b, n) && IsGrid(v, n) && Digits(digits, n) && 0 <= j < 4 * n * n && 0 <= t < t' < n
    requires MemberPlaced(v, digits, b, n, j, t) && MemberPlaced(v, digits, b, n, j, t')
    ensures !Clashless(v, b, n)
  {
    ColumnSplit(n, j);
    var k, a, e := j / (n * n), (j % (n * n)) / n, j % n;
    MemberRowParts(b, n, k, a, e, t);
    MemberRowParts(b, n, k, a, e, t');
    var x, y := MemberRow(b, n, j, t), MemberRow(b, n, j, t');
    if x == y {
      MemberRowInjective(b, n, j, t, t');
    }
    EncodeDecode(n, x);
    EncodeDecode(n, y);
    var r, c, d := GridRow(n, x), GridCol(n, x), GridDigit(n, x);
    var r', c', d' := GridRow(n, y), GridCol(n, y), GridDigit(n, y);
    SameColumn(b, n, k, r, c, d, r', c', d');
    if k == 0 {
      // one cell holding two different digits of a distinct alphabet
      assert false;
    } else {
      assert Peers(b, r, c, r', c') && v[r][c] != 0 && v[r][c] == v[r'][c'];
    }
  }

  /** For a grid of givens, having no clash is having at most one placed row per column. */
  lemma ClashlessIffAtMostOnce(v: Values, digits: seq<int>, b: int, n: int)
    requires IsDims(b, n) && IsGrid(v, n) && Digits(digits, n) && Givens(v, digits, n)
    ensures Clashless(v, b, n) <==> AtMostOnce(v, digits, b, n)
  {
    if Clashless(v, b, n) {
      forall j | 0 <= j < 4 * n * n
        ensures Count(v, digits, b, n, j) <= 1
      {
        if Count(v, digits, b, n, j) >= 2 {
          PlacedInPair(v, digits, b, n, j, n);
          var t, t' :| 0 <= t < t' < n && MemberPlaced(v, digits, b, n, j, t) && MemberPlaced(v, digits, b, n, j, t');
          PairClash(v, digits, b, n, j, t, t');
          assert false;
        }
      }
    }
    if AtMostOnce(v, digits, b, n) {
      forall r, c, r', c' | 0 <= r < n && 0 <= c < n && 0 <= r' < n && 0 <= c' < n && Peers(b, r, c, r', c') && v[r][c] != 0
        ensures v[r][c] != v[r'][c']
      {
        Apart(v, digits, b, n, r, c, r', c');
      }
    }
  }

  // ---------------------------------------------------------------------
  // The matrix state in step with the grid
  // ---------------------------------------------------------------------

  /** A column is included exactly when none of its rows is placed, and none has two. */
  predicate Linked(s: XState, v: Values, digits: seq<int>, b: int, n: int)
    requires IsDims(b, n) && IsGrid(v, n) && |digits| == n && |s.incl| == 4 * n * n
  {
    forall j :: 0 <= j < 4 * n * n ==> LinkedAt(s, v, digits, b, n, j)
  }

  /** Column j is included exactly when none of its rows is placed, and it has at most one. */
  predicate LinkedAt(s: XState, v: Values, digits: seq<int>, b: int, n: int, j: int)
    requires IsDims(b, n) && IsGrid(v, n) && |digits| == n && |s.incl| == 4 * n * n && 0 <= j < 4 * n * n
  {
    (s.incl[j] <==> Count(v, digits, b, n, j) == 0) && Count(v, digits, b, n, j) <= 1
  }

  /**
   * Removing row x while writing its digit into its empty cell keeps the
   * state in step with the grid, when all four of x's columns are included.
   */
  lemma LinkedWrite(s: XState, lay: seq<seq<int>>, v: Values, digits: seq<int>, b: int, n: int, x: int)
    requires IsDims(b, n) && Laid(lay, b, n) && Shaped(s, lay) && |s.incl| == 4 * n * n
    requires IsGrid(v, n) && Digits(digits, n) && 0 <= x < n * n * n && CellEmpty(v, n, x)
    requires Linked(s, v, digits, b, n)
    requires forall k :: 0 <= k < 4 ==> s.incl[lay[x][k]]
    ensures Linked(Apply(Remove, s, lay, x), Write(v, digits, n, x), digits, b, n)
  {
    var s', w := Apply(Remove, s, lay, x), Write(v, digits, n, x);
    forall k | 0 <= k < 4
      ensures Count(v, digits, b, n, lay[x][k]) == 0
    {
      assert LinkedAt(s, v, digits, b, n, lay[x][k]);
    }
    forall j | 0 <= j < 4 * n * n
      ensures LinkedAt(s', w, digits, b, n, j)
    {
      assert LinkedAt(s, v, digits, b, n, j);
      WriteCount(v, digits, b, n, x, j);
      CoversLaid(lay, b, n, x, j);
    }
  }

  /** When every column of row x is included, x's cell is empty. */
  lemma IncludedCellEmpty(s: XState, lay: seq<seq<int>>, v: Values, digits: seq<int>, b: int, n: int, x: int)
    requires IsDims(b, n) && Laid(lay, b, n) && Shaped(s, lay) && |s.incl| == 4 * n * n
    requires IsGrid(v, n) && Digits(digits, n) && Givens(v, digits, n) && 0 <= x < n * n * n
    requires Linked(s, v, digits, b, n) && s.incl[lay[x][0]]
    ensures CellEmpty(v, n, x)
  {
    EncodeDecode(n, x);
    var r, c, d := GridRow(n, x), GridCol(n, x), GridDigit(n, x);
    ColumnsOfRowId(b, n, r, c, d);
    assert lay[x][0] == FamilyColumn(b, n, 0, x) == r * n + c;
    assert LinkedAt(s, v, digits, b, n, lay[x][0]);
    NoDigitInCell(v, digits, b, n, r, c);
  }

  /** Writing a digit into an empty cell keeps the givens, and erasing it again restores the grid. */
  lemma WriteErase(v: Values, digits: seq<int>, n: int, x: int)
    requires IsGrid(v, n) && Digits(digits, n) && n > 0 && 0 <= x < n * n * n && Givens(v, digits, n) && CellEmpty(v, n, x)
    ensures Givens(Write(v, digits, n, x), digits, n)
    ensures Extends(Write(v, digits, n, x), v, n)
    ensures Erase(Write(v, digits, n, x), n, x) == v
  {
    DecodeBounds(n, x);
    var r, c := GridRow(n, x), GridCol(n, x);
    PlaceTwice(v, r, c, digits[GridDigit(n, x)], 0);
    PlaceSame(v, r, c);
  }

  /** Extending is transitive. */
  lemma ExtendsTrans(u: Values, w: Values, v: Values, n: int)
    requires Extends(u, w, n) && Extends(w, v, n)
    ensures Extends(u, v, n)
  {
  }

  /** What the search keeps throughout: a searchable state in step with a grid of givens. */
  predicate InStep(s: XState, lay: seq<seq<int>>, v: Values, digits: seq<int>, b: int, n: int)
  {
    IsDims(b, n) && Laid(lay, b, n) && Searchable(s, lay, n) && |s.incl| == 4 * n * n &&
    IsGrid(v, n) && Digits(digits, n) && Givens(v, digits, n) && Linked(s, v, digits, b, n)
  }

  /** The search's verdict: a solution extending the grid, or the grid untouched. */
  predicate Sound(o: Outcome, v: Values, digits: seq<int>, b: int, n: int)
  {
    IsDims(b, n) && IsGrid(v, n) && |digits| == n && IsGrid(o.v, n) &&
    (o.solved ==> ExactCover(o.v, digits, b, n) && Extends(o.v, v, n)) && (!o.solved ==> o.v == v)
  }

  /**
   * performCalcs is sound: on a state in step with the grid, success means
   * an exact cover agreeing with every filled cell, and failure leaves the
   * grid as it was.
   */
  lemma {:induction false} XSearchSound(s: XState, lay: seq<seq<int>>, v: Values, digits: seq<int>, b: int, n: int)
    requires InStep(s, lay, v, digits, b, n)
    ensures Sound(XSearch(s, lay, v, digits, n), v, digits, b, n)
    decreases Active(s.incl, |s.incl|), 1, 0, 0
  {
    var c := MinCol(s.sums, s.incl);
    if c == -1 {
      forall j | 0 <= j < 4 * n * n
        ensures OnceIn(v, digits, b, n, j)
      {
        assert !s.incl[j] && LinkedAt(s, v, digits, b, n, j);
      }
    } else if s.sums[c] != 0 {
      XTrySound(s, lay, v, digits, b, n, c, 0);
    }
  }

  /** performCalcs's loop over the rows of column c from x on is sound. */
  lemma {:induction false} XTrySound(s: XState, lay: seq<seq<int>>, v: Values, digits: seq<int>, b: int, n: int, c: int, x: int)
    requires InStep(s, lay, v, digits, b, n)
    requires 0 <= c < |s.incl| && s.incl[c] && 0 <= x <= |lay|
    ensures Sound(XTry(s, lay, v, digits, n, c, x), v, digits, b, n)
    decreases Active(s.incl, |s.incl|), 0, |lay| - x, 1
  {
    if x == |lay| {
    } else if !EntryOf(s.table[x], lay[x], c) {
      XTrySound(s, lay, v, digits, b, n, c, x + 1);
    } else {
      XPickSound(s, lay, v, digits, b, n, c, x);
    }
  }

  /** A try of row x in column c, and the loop after it when it fails, is sound. */
  lemma {:induction false} XPickSound(s: XState, lay: seq<seq<int>>, v: Values, digits: seq<int>, b: int, n: int, c: int, x: int)
    requires InStep(s, lay, v, digits, b, n)
    requires 0 <= c < |s.incl| && s.incl[c] && 0 <= x < |lay| && EntryOf(s.table[x], lay[x], c)
    ensures Sound(XPick(s, lay, v, digits, n, c, x), v, digits, b, n)
    decreases Active(s.incl, |s.incl|), 0, |lay| - x, 0
  {
    PickStep(s, lay, v, digits, b, n, c, x);
    var s1, v1 := Apply(Remove, s, lay, x), Write(v, digits, n, x);
    XSearchSound(s1, lay, v1, digits, b, n);
    var o := XSearch(s1, lay, v1, digits, n);
    if !o.solved {
      PickedEntryFull(s, lay, x, c);
      ResetAfterRemove(s, o.s, lay, x);
      var s2 := Apply(Reset, o.s, lay, x);
      InStepTwin(s, s2, lay, v, digits, b, n);
      XTrySound(s2, lay, v, digits, b, n, c, x + 1);
    }
    PickSound(s, lay, v, digits, b, n, c, x);
  }

  /** A state with the entries and flags of one in step with the grid is in step with it too. */
  lemma InStepTwin(s: XState, s': XState, lay: seq<seq<int>>, v: Values, digits: seq<int>, b: int, n: int)
    requires InStep(s, lay, v, digits, b, n) && Twin(s', s)
    ensures InStep(s', lay, v, digits, b, n)
  {
    forall j | 0 <= j < 4 * n * n
      ensures LinkedAt(s', v, digits, b, n, j)
    {
      assert LinkedAt(s, v, digits, b, n, j);
    }
  }

  /**
   * A sound search after picking row x and, when it fails, a sound loop
   * from x+1 on the state the reset leaves make the try of x sound.
   */
  lemma PickSound(s: XState, lay: seq<seq<int>>, v: Values, digits: seq<int>, b: int, n: int, c: int, x: int)
    requires Searchable(s, lay, n) && IsDims(b, n) && IsGrid(v, n) && |digits| == n
    requires 0 <= c < |s.incl| && s.incl[c] && 0 <= x < |lay| && EntryOf(s.table[x], lay[x], c)
    requires var s1, v1 := Apply(Remove, s, lay, x), Write(v, digits, n, x);
      Searchable(s1, lay, n) && Extends(v1, v, n) && Erase(v1, n, x) == v &&
      Sound(XSearch(s1, lay, v1, digits, n), v1, digits, b, n) &&
      var o := XSearch(s1, lay, v1, digits, n);
      !o.solved ==> (Searchable(Apply(Reset, o.s, lay, x), lay, n) && Apply(Reset, o.s, lay, x).incl[c] &&
                     Sound(XTry(Apply(Reset, o.s, lay, x), lay, v, digits, n, c, x + 1), v, digits, b, n))
    ensures Sound(XPick(s, lay, v, digits, n, c, x), v, digits, b, n)
  {
    var o := XSearch(Apply(Remove, s, lay, x), lay, Write(v, digits, n, x), digits, n);
    if o.solved {
      ExtendsTrans(o.v, Write(v, digits, n, x), v, n);
    }
  }

  /**
   * Picking row x in column c: the state after its removal is searchable,
   * has fewer included columns and stays in step with the grid after its
   * digit is written, and erasing that digit gives the grid back.
   */
  lemma PickStep(s: XState, lay: seq<seq<int>>, v: Values, digits: seq<int>, b: int, n: int, c: int, x: int)
    requires InStep(s, lay, v, digits, b, n)
    requires 0 <= c < |s.incl| && s.incl[c] && 0 <= x < |lay| && EntryOf(s.table[x], lay[x], c)
    ensures var s1, v1 := Apply(Remove, s, lay, x), Write(v, digits, n, x);
      InStep(s1, lay, v1, digits, b, n) && Active(s1.incl, |s1.incl|) < Active(s.incl, |s.incl|) &&
      Extends(v1, v, n) && Erase(v1, n, x) == v
  {
    PickedEntryFull(s, lay, x, c);
    FullRowIncluded(s, lay, x);
    ActiveRemove(s, lay, x);
    SettledRemove(s, lay, x);
    IncludedCellEmpty(s, lay, v, digits, b, n, x);
    LinkedWrite(s, lay, v, digits, b, n, x);
    WriteErase(v, digits, n, x);
  }

  // ---------------------------------------------------------------------
  // init: the givens removed, the state in step with the grid
  // ---------------------------------------------------------------------

  /** The n-by-n grid with every cell empty. */
  function Blank(n: nat): (w: Values)
    ensures IsGrid(w, n) && forall r, c :: 0 <= r < n && 0 <= c < n ==> w[r][c] == 0
  {
    seq(n, r => seq(n, c => 0))
  }

  /** w holds v's cells before (row, col) in row-major order, and is empty from there on. */
  predicate Upto(w: Values, v: Values, n: int, row: int, col: int)
    requires IsGrid(w, n) && IsGrid(v, n)
  {
    forall r, c :: 0 <= r < n && 0 <= c < n ==> w[r][c] == if r < row || (r == row && c < col) then v[r][c] else 0
  }

  /** A grid whose filled cells all agree with v has no more placed rows below m in any column than v. */
  lemma {:induction false} PlacedInSub(w: Values, v: Values, digits: seq<int>, b: int, n: int, j: int, m: int)
    requires IsDims(b, n) && IsGrid(w, n) && IsGrid(v, n) && Digits(digits, n) && 0 <= j < 4 * n * n && 0 <= m <= n
    requires forall r, c :: 0 <= r < n && 0 <= c < n && w[r][c] != 0 ==> w[r][c] == v[r][c]
    ensures PlacedIn(w, digits, b, n, j, m) <= PlacedIn(v, digits, b, n, j, m)
    decreases m
  {
    if m > 0 {
      PlacedInSub(w, v, digits, b, n, j, m - 1);
      MemberBound(b, n, j, m - 1);
      var x := MemberRow(b, n, j, m - 1);
      DecodeBounds(n, x);
      if MemberPlaced(w, digits, b, n, j, m - 1) {
        assert digits[GridDigit(n, x)] != 0;
        assert MemberPlaced(v, digits, b, n, j, m - 1);
      }
    }
  }

  /** The empty grid has no placed row. */
  lemma {:induction false} PlacedInBlank(digits: seq<int>, b: int, n: int, j: int, m: int)
    requires IsDims(b, n) && Digits(digits, n) && 0 <= j < 4 * n * n && 0 <= m <= n
    ensures PlacedIn(Blank(n), digits, b, n, j, m) == 0
    decreases m
  {
    if m > 0 {
      PlacedInBlank(digits, b, n, j, m - 1);
      MemberBound(b, n, j, m - 1);
      var x := MemberRow(b, n, j, m - 1);
      DecodeBounds(n, x);
      assert digits[GridDigit(n, x)] != 0;
    }
  }

  /** The constructor's matrix is in step with the empty grid: every column included, none placed. */
  lemma InitialLinked(digits: seq<int>, b: int, n: int)
    requires IsDims(b, n) && Digits(digits, n)
    ensures |InitialMatrix(b, n).incl| == 4 * n * n && Linked(InitialMatrix(b, n), Blank(n), digits, b, n)
  {
    var s := InitialMatrix(b, n);
    forall j | 0 <= j < 4 * n * n
      ensures LinkedAt(s, Blank(n), digits, b, n, j)
    {
      PlacedInBlank(digits, b, n, j, n);
    }
  }

  /**
   * init from cell (row, col) on, on a state in step with the givens before
   * (row, col), ends in step with all the givens, when the givens have at
   * most one placed row per column.
   */
  lemma {:induction false} InitLinked(s: XState, lay: seq<seq<int>>, v: Values, w: Values, digits: seq<int>, b: int, n: int, row: int, col: int)
    requires IsDims(b, n) && Laid(lay, b, n) && Shaped(s, lay) && |s.incl| == 4 * n * n
    requires IsGrid(v, n) && IsGrid(w, n) && Digits(digits, n) && Givens(v, digits, n) && AtMostOnce(v, digits, b, n)
    requires 0 <= row <= n && 0 <= col <= n && Upto(w, v, n, row, col) && Linked(s, w, digits, b, n)
    ensures var s' := InitFrom(s, lay, v, digits, n, row, col);
      |s'.incl| == 4 * n * n && Linked(s', v, digits, b, n)
    decreases n - row, n - col
  {
    if row == n {
      SameGrid(w, v, n);
    } else if col == n {
      InitLinked(s, lay, v, w, digits, b, n, row + 1, 0);
    } else if v[row][col] == 0 {
      InitLinked(s, lay, v, w, digits, b, n, row, col + 1);
    } else {
      var p := Alpha.DigitPosition(digits, v[row][col]);
      DecodeRowId(n, row, col, p);
      var x := RowId(n, row, col, p);
      var s', w' := Apply(Remove, s, lay, x), Write(w, digits, n, x);
      assert InitFrom(s, lay, v, digits, n, row, col) == InitFrom(s', lay, v, digits, n, row, col + 1);
      InitStep(s, lay, v, w, digits, b, n, row, col, p);
      InitLinked(s', lay, v, w', digits, b, n, row, col + 1);
    }
  }

  /** init's removal for the given at (row, col) keeps the state in step with the givens up to it. */
  lemma InitStep(s: XState, lay: seq<seq<int>>, v: Values, w: Values, digits: seq<int>, b: int, n: int, row: int, col: int, p: int)
    requires IsDims(b, n) && Laid(lay, b, n) && Shaped(s, lay) && |s.incl| == 4 * n * n
    requires IsGrid(v, n) && IsGrid(w, n) && Digits(digits, n) && AtMostOnce(v, digits, b, n)
    requires 0 <= row < n && 0 <= col < n && Upto(w, v, n, row, col) && Linked(s, w, digits, b, n)
    requires 0 <= p < n && v[row][col] == digits[p]
    ensures 0 <= RowId(n, row, col, p) < n * n * n
    ensures var x := RowId(n, row, col, p);
      var s', w' := Apply(Remove, s, lay, x), Write(w, digits, n, x);
      |s'.incl| == 4 * n * n && Upto(w', v, n, row, col + 1) && Linked(s', w', digits, b, n)
  {
    DecodeRowId(n, row, col, p);
    var x := RowId(n, row, col, p);
    var w' := Write(w, digits, n, x);
    assert CellEmpty(w, n, x);
    UptoWrite(w, v, digits, n, row, col, p);
    forall k | 0 <= k < 4
      ensures s.incl[lay[x][k]]
    {
      var j := lay[x][k];
      FamilyBound(b, n, k, x);
      CoversLaid(lay, b, n, x, j);
      WriteCount(w, digits, b, n, x, j);
      CountUpto(w', v, digits, b, n, row, col + 1, j);
      assert Count(v, digits, b, n, j) <= 1;
      assert LinkedAt(s, w, digits, b, n, j);
    }
    LinkedWrite(s, lay, w, digits, b, n, x);
  }

  /** Writing the given at (row, col) extends the copy of the givens by that cell. */
  lemma UptoWrite(w: Values, v: Values, digits: seq<int>, n: int, row: int, col: int, p: int)
    requires IsGrid(v, n) && IsGrid(w, n) && |digits| == n && 0 <= row < n && 0 <= col < n && Upto(w, v, n, row, col)
    requires 0 <= p < n && v[row][col] == digits[p]
    ensures 0 <= RowId(n, row, col, p) < n * n * n
    ensures Upto(Write(w, digits, n, RowId(n, row, col, p)), v, n, row, col + 1)
  {
    DecodeRowId(n, row, col, p);
  }

  /** A partial copy of the givens has no more placed rows in any column than the givens. */
  lemma CountUpto(w: Values, v: Values, digits: seq<int>, b: int, n: int, row: int, col: int, j: int)
    requires IsDims(b, n) && IsGrid(v, n) && IsGrid(w, n) && Digits(digits, n) && Upto(w, v, n, row, col) && 0 <= j < 4 * n * n
    ensures Count(w, digits, b, n, j) <= Count(v, digits, b, n, j)
  {
    PlacedInSub(w, v, digits, b, n, j, n);
  }

  /**
   * solve is sound: on a grid of givens with no clash, success leaves a
   * Sudoku solution agreeing with every given, and failure leaves the grid
   * as it was.
   */
  lemma SolveSound(v: Values, digits: seq<int>, b: int, n: int)
    requires IsDims(b, n) && IsGrid(v, n) && Digits(digits, n) && Givens(v, digits, n) && Clashless(v, b, n)
    ensures var o := SolveOutcome(v, digits, b, n);
      IsGrid(o.v, n) && (o.solved ==> IsSolution(o.v, digits, b, n) && Extends(o.v, v, n)) && (!o.solved ==> o.v == v)
  {
    var lay := ColumnTable(b, n);
    var s0 := InitialMatrix(b, n);
    ClashlessIffAtMostOnce(v, digits, b, n);
    InitialLinked(digits, b, n);
    InitialSettled(b, n);
    ColumnTableLaid(b, n);
    InitLinked(s0, lay, v, Blank(n), digits, b, n, 0, 0);
    var s := InitFrom(s0, lay, v, digits, n, 0, 0);
    InitSettled(s0, lay, v, digits, n, 0, 0);
    XSearchSound(s, lay, v, digits, b, n);
    var o := XSearch(s, lay, v, digits, n);
    if o.solved {
      ExactCoverSolution(o.v, digits, b, n);
    }
  }
}
