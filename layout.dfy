/**
 * The arithmetic layout shared by the three exact-cover solvers.
 *
 * For a grid of dimension n = b*b, a candidate ("matrix row") places the
 * digit at position d of the alphabet into cell (r, c); its number is
 * r*n*n + c*n + d.  There are 4*n*n constraint columns in four bands of
 * n*n: the cell band [0, n*n), the row-digit band [n*n, 2*n*n), the
 * column-digit band [2*n*n, 3*n*n) and the box-digit band [3*n*n, 4*n*n).
 */
module Layout {

  /** Grid dimension n with integer box size b. */
  predicate IsDims(b: int, n: int)
  {
    b >= 1 && n == b * b && n >= 1
  }

  /** Matrix row of digit position d in cell (r, c). */
  function RowId(n: int, r: int, c: int, d: int): int
  {
    r * n * n + c * n + d
  }

  /** The row number the way init computes it. */
  lemma RowIdShape(n: int, r: int, c: int, d: int)
    ensures n * n * r + n * c + d == RowId(n, r, c, d)
  {
    assert n * n * r == r * n * n;
    assert n * c == c * n;
  }

  /** getGridRow: the grid row of a matrix row. */
  function GridRow(n: int, x: int): int
    requires n > 0
  {
    x / (n * n)
  }

  /** getGridCol: the grid column of a matrix row. */
  function GridCol(n: int, x: int): int
    requires n > 0
  {
    (x % (n * n)) / n
  }

  /** getGridDigit: the digit position of a matrix row. */
  function GridDigit(n: int, x: int): int
    requires n > 0
  {
    x % n
  }

  /** cellConstraintByRow */
  function CellColumn(n: int, x: int): int
    requires n > 0
  {
    x / n
  }

  /** rowConstraintByRow */
  function RowColumn(n: int, x: int): int
    requires n > 0
  {
    n * n + n * (x / (n * n)) + x % n
  }

  /** colConstraintByRow */
  function ColColumn(n: int, x: int): int
    requires n > 0
  {
    2 * n * n + x % (n * n)
  }

  /**
   * boxConstraintByRow.  The source computes n^1.5 and n^2.5 in floating
   * point; with n = b*b these are exactly b*n and b*n*n.
   */
  function BoxColumn(b: int, n: int, x: int): int
    requires IsDims(b, n)
  {
    3 * n * n + (b * n) * (x / (b * n * n))
    + n * ((x % (n * n)) / (b * n)) + x % n
  }

  /** Column of family k (0 cell, 1 row, 2 column, 3 box) covered by row x. */
  function FamilyColumn(b: int, n: int, k: int, x: int): int
    requires IsDims(b, n) && 0 <= k < 4
  {
    if k == 0 then CellColumn(n, x)
    else if k == 1 then RowColumn(n, x)
    else if k == 2 then ColColumn(n, x)
    else BoxColumn(b, n, x)
  }

  /** Row x covers column j. */
  predicate Covers(b: int, n: int, x: int, j: int)
    requires IsDims(b, n)
  {
    exists k :: 0 <= k < 4 && FamilyColumn(b, n, k, x) == j
  }

  /** Index of the box holding cell (r, c). */
  function BoxOf(b: int, r: int, c: int): int
    requires b >= 1
  {
    b * (r / b) + c / b
  }

  /**
   * The t-th row (in increasing order) covering column j: the column's
   * family picks which coordinate t runs over.
   */
  function MemberRow(b: int, n: int, j: int, t: int): int
    requires IsDims(b, n)
  {
    var k := j / (n * n);
    var a := (j % (n * n)) / n;
    var e := j % n;
    if k == 0 then RowId(n, a, e, t)
    else if k == 1 then RowId(n, a, t, e)
    else if k == 2 then RowId(n, t, a, e)
    else RowId(n, b * (a / b) + t / b, b * (a % b) + t % b, e)
  }

  /** The rows below k that cover column j, in decreasing order. */
  function CoveringRows(b: int, n: int, j: int, k: int): (rows: seq<int>)
    requires IsDims(b, n)
    ensures forall i :: 0 <= i < |rows| ==> 0 <= rows[i] < k && Covers(b, n, rows[i], j)
    ensures forall i, i' :: 0 <= i < i' < |rows| ==> rows[i] > rows[i']
    decreases k
  {
    if k <= 0 then []
    else if Covers(b, n, k - 1, j) then [k - 1] + CoveringRows(b, n, j, k - 1)
    else CoveringRows(b, n, j, k - 1)
  }

  // ---------------------------------------------------------------------
  // Division helpers
  // ---------------------------------------------------------------------

  lemma MulLeLemma(a: int, a': int, m: int)
    requires 0 <= a <= a' && m >= 0
    ensures a * m <= a' * m
  {
  }

  lemma DivModUnique(x: int, m: int, q: int, r: int)
    requires m > 0 && 0 <= r < m && x == q * m + r
    ensures x / m == q && x % m == r
  {
    var q' := x / m;
    var r' := x % m;
    assert x == q' * m + r';
    if q' > q {
      MulLeLemma(1, q' - q, m);
      assert false;
    } else if q' < q {
      MulLeLemma(1, q - q', m);
      assert false;
    }
  }

  // ---------------------------------------------------------------------
  // Encoding and decoding
  // ---------------------------------------------------------------------

  /** The low part c*n + d of a matrix row is a value below n*n. */
  lemma LowPart(n: int, c: int, d: int)
    requires 0 <= c < n && 0 <= d < n
    ensures 0 <= c * n + d < n * n
  {
    MulLeLemma(c, n - 1, n);
  }

  lemma SplitHigh(n: int, r: int, c: int, d: int)
    requires 0 <= r < n && 0 <= c < n && 0 <= d < n
    ensures (r * n * n + c * n + d) / (n * n) == r
    ensures (r * n * n + c * n + d) % (n * n) == c * n + d
    ensures 0 <= r * n * n + c * n + d < n * n * n
  {
    LowPart(n, c, d);
    DivModUnique(r * n * n + c * n + d, n * n, r, c * n + d);
    MulLeLemma(r, n - 1, n * n);
  }

  lemma SplitLow(n: int, q: int, d: int)
    requires 0 <= d < n
    ensures (q * n + d) / n == q && (q * n + d) % n == d
  {
    DivModUnique(q * n + d, n, q, d);
  }

  /** r*n*n + c*n + d regrouped as (r*n + c)*n + d. */
  lemma Regroup(n: int, r: int, c: int, d: int)
    ensures r * n * n + c * n + d == (r * n + c) * n + d
  {
    MulDistrib(r * n, c, n);
  }

  /** q*b + s with s below b splits back into q and s. */
  lemma BlockSplit(b: int, q: int, s: int)
    requires 0 <= s < b
    ensures (b * q + s) / b == q && (b * q + s) % b == s
  {
    assert b * q + s == q * b + s;
    SplitLow(b, q, s);
  }

  /** A matrix row of an in-range cell and digit lies in [0, n^3) and decodes back. */
  lemma DecodeRowId(n: int, r: int, c: int, d: int)
    requires n > 0 && 0 <= r < n && 0 <= c < n && 0 <= d < n
    ensures 0 <= RowId(n, r, c, d) < n * n * n
    ensures GridRow(n, RowId(n, r, c, d)) == r
    ensures GridCol(n, RowId(n, r, c, d)) == c
    ensures GridDigit(n, RowId(n, r, c, d)) == d
    ensures CellColumn(n, RowId(n, r, c, d)) == r * n + c
  {
    SplitHigh(n, r, c, d);
    SplitLow(n, c, d);
    LowDecode(n, r, c, d);
  }

  /** The digit and the cell of a matrix row come from its remainder and quotient by n. */
  lemma LowDecode(n: int, r: int, c: int, d: int)
    requires 0 <= d < n
    ensures RowId(n, r, c, d) % n == d && RowId(n, r, c, d) / n == r * n + c
  {
    Regroup(n, r, c, d);
    SplitLow(n, r * n + c, d);
  }

  lemma HighBound(n: int, x: int)
    requires n > 0 && 0 <= x < n * n * n
    ensures x / (n * n) < n
  {
    var r := x / (n * n);
    assert x == r * (n * n) + x % (n * n);
    if r >= n {
      MulLeLemma(n, r, n * n);
      assert false;
    }
  }

  lemma LowBound(n: int, y: int)
    requires n > 0 && 0 <= y < n * n
    ensures y / n < n
  {
    var c := y / n;
    assert y == c * n + y % n;
    if c >= n {
      MulLeLemma(n, c, n);
      assert false;
    }
  }

  /** Every matrix row below n^3 is the row of its decoded cell and digit. */
  lemma EncodeDecode(n: nat, x: nat)
    requires n > 0 && x < n * n * n
    ensures 0 <= GridRow(n, x) < n && 0 <= GridCol(n, x) < n && 0 <= GridDigit(n, x) < n
    ensures RowId(n, GridRow(n, x), GridCol(n, x), GridDigit(n, x)) == x
  {
    DecodeBounds(n, x);
    ModOfMod(n, x);
    SplitColumn(n, x);
  }

  lemma DecodeBounds(n: nat, x: nat)
    requires n > 0 && x < n * n * n
    ensures 0 <= GridRow(n, x) < n && 0 <= GridCol(n, x) < n && 0 <= GridDigit(n, x) < n
  {
    HighBound(n, x);
    LowBound(n, x % (n * n));
  }

  lemma Recompose(n: int, x: int, r: int, low: int, c: int, d: int)
    requires x == r * (n * n) + low && low == c * n + d
    ensures x == r * n * n + c * n + d
  {
  }

  lemma MulAssoc(x: int, y: int, z: int)
    ensures x * y * z == x * (y * z)
  {
  }

  lemma MulDistrib(x: int, y: int, z: int)
    ensures (x + y) * z == x * z + y * z
  {
  }

  lemma MulSwap(x: int, y: int, z: int)
    ensures (x * y) * z == y * (x * z)
  {
  }

  /** (b*q + s)*m + low, with low below m and s below b, has quotient q by b*m. */
  lemma BlockDiv(b: int, m: int, q: int, s: int, low: int)
    requires b >= 1 && m >= 1 && 0 <= s < b && 0 <= low < m
    ensures ((b * q + s) * m + low) / (b * m) == q
  {
    MulDistrib(b * q, s, m);
    MulSwap(b, q, m);
    MulAssoc(q, b, m);
    MulLeLemma(s, b - 1, m);
    DivModUnique((b * q + s) * m + low, b * m, q, s * m + low);
  }

  /** The b*n*n quotient of a matrix row is the block row r / b. */
  lemma BoxHigh(b: int, n: int, r: int, low: int)
    requires b >= 1 && n == b * b && r >= 0 && 0 <= low < n * n
    ensures (r * n * n + low) / (b * n * n) == r / b
  {
    var q, s := r / b, r % b;
    assert r == b * q + s;
    MulAssoc(r, n, n);
    MulAssoc(b, n, n);
    BlockDiv(b, n * n, q, s, low);
  }

  /** The b*n quotient of the low part c*n + d is the block column c / b. */
  lemma BoxMid(b: int, n: int, c: int, d: int)
    requires b >= 1 && n == b * b && c >= 0 && 0 <= d < n
    ensures (c * n + d) / (b * n) == c / b
  {
    var q, s := c / b, c % b;
    assert c == b * q + s;
    BlockDiv(b, n, q, s, d);
  }

  /** The box of an in-range cell is below n. */
  lemma BoxOfBound(b: nat, r: nat, c: nat)
    requires b >= 1 && r < b * b && c < b * b
    ensures 0 <= BoxOf(b, r, c) < b * b
  {
    LowBound(b, r);
    LowBound(b, c);
    LowPart(b, r / b, c / b);
  }

  lemma BoxColumnOfRowId(b: int, n: int, r: int, c: int, d: int)
    requires IsDims(b, n) && 0 <= r < n && 0 <= c < n && 0 <= d < n
    ensures BoxColumn(b, n, RowId(n, r, c, d)) == 3 * n * n + n * BoxOf(b, r, c) + d
  {
    var x := RowId(n, r, c, d);
    SplitHigh(n, r, c, d);
    LowPart(n, c, d);
    BoxHigh(b, n, r, c * n + d);
    BoxMid(b, n, c, d);
    SplitLow(n, r * n + c, d);
    assert x == (r * n + c) * n + d;
    var R, C := r / b, c / b;
    MulSwap(b, n, R);
    assert (b * n) * R + n * C == n * (b * R + C);
  }

  /** The four columns of the row for (r, c, d), each in its own band. */
  lemma ColumnsOfRowId(b: nat, n: nat, r: nat, c: nat, d: nat)
    requires IsDims(b, n) && r < n && c < n && d < n
    ensures CellColumn(n, RowId(n, r, c, d)) == r * n + c
    ensures RowColumn(n, RowId(n, r, c, d)) == n * n + r * n + d
    ensures ColColumn(n, RowId(n, r, c, d)) == 2 * n * n + c * n + d
    ensures BoxColumn(b, n, RowId(n, r, c, d)) == 3 * n * n + n * BoxOf(b, r, c) + d
    ensures 0 <= BoxOf(b, r, c) < n
  {
    DecodeRowId(n, r, c, d);
    SplitHigh(n, r, c, d);
    BoxColumnOfRowId(b, n, r, c, d);
    BoxOfBound(b, r, c);
  }

  /** Column j = k*n*n + a*n + e of band k. */
  lemma ColumnParts(n: int, k: int, a: int, e: int)
    requires n >= 1 && 0 <= k && 0 <= a < n && 0 <= e < n
    ensures (k * n * n + a * n + e) / (n * n) == k
    ensures ((k * n * n + a * n + e) % (n * n)) / n == a
    ensures (k * n * n + a * n + e) % n == e
    ensures k * n * n <= k * n * n + a * n + e < (k + 1) * n * n
  {
    LowPart(n, a, e);
    MulAssoc(k, n, n);
    DivModUnique(k * n * n + a * n + e, n * n, k, a * n + e);
    SplitLow(n, a, e);
    Regroup(n, k, a, e);
    SplitLow(n, k * n + a, e);
    MulDistrib(k, 1, n * n);
  }

  /** Each family column of an in-range row lies in the family's band of [0, 4n^2). */
  lemma ColumnBands(b: int, n: int, x: int)
    requires IsDims(b, n) && 0 <= x < n * n * n
    ensures 0 <= CellColumn(n, x) < n * n
    ensures n * n <= RowColumn(n, x) < 2 * n * n
    ensures 2 * n * n <= ColColumn(n, x) < 3 * n * n
    ensures 3 * n * n <= BoxColumn(b, n, x) < 4 * n * n
  {
    EncodeDecode(n, x);
    var r, c, d := GridRow(n, x), GridCol(n, x), GridDigit(n, x);
    ColumnsOfRowId(b, n, r, c, d);
    ColumnParts(n, 0, r, c);
    ColumnParts(n, 1, r, d);
    ColumnParts(n, 2, c, d);
    ColumnParts(n, 3, BoxOf(b, r, c), d);
  }

  /** The coordinate of row x along its column of family k. */
  function MemberIndex(b: int, n: int, k: int, x: int): int
    requires IsDims(b, n)
  {
    var r, c, d := GridRow(n, x), GridCol(n, x), GridDigit(n, x);
    if k == 0 then d
    else if k == 1 then c
    else if k == 2 then r
    else b * (r % b) + c % b
  }

  /** q*b + s with s < b splits back into q and s, and stays below n when q < b. */
  lemma BlockPart(b: int, n: int, q: int, s: int)
    requires IsDims(b, n) && 0 <= q < b && 0 <= s < b
    ensures 0 <= b * q + s < n
    ensures (b * q + s) / b == q && (b * q + s) % b == s
  {
    LowPart(b, q, s);
    assert b * q + s == q * b + s;
    BlockSplit(b, q, s);
  }

  /** Stepping a box origin by b: the q-th origin is inside the grid exactly when q < b. */
  lemma BoxStart(b: int, n: int, q: int)
    requires IsDims(b, n) && 0 <= q <= b
    ensures b * q <= n && (b * q < n <==> q < b)
    ensures b * q + b == b * (q + 1)
  {
    if q < b {
      MulLeLemma(q, b - 1, b);
      MulDistrib(b - 1, 1, b);
    }
  }

  /** The cell at offset t of box a lies in box a, at offset t. */
  lemma BoxCoordinates(b: int, n: int, a: int, t: int)
    requires IsDims(b, n) && 0 <= a < n && 0 <= t < n
    ensures 0 <= b * (a / b) + t / b < n
    ensures 0 <= b * (a % b) + t % b < n
    ensures BoxOf(b, b * (a / b) + t / b, b * (a % b) + t % b) == a
    ensures b * ((b * (a / b) + t / b) % b) + (b * (a % b) + t % b) % b == t
  {
    LowBound(b, a);
    LowBound(b, t);
    BoxParts(b, n, a / b, a % b, t / b, t % b);
    DivMod(b, a);
    DivMod(b, t);
  }

  /** x is b times its quotient by b plus its remainder. */
  lemma DivMod(b: int, x: int)
    requires b >= 1
    ensures x == b * (x / b) + x % b
  {
  }

  /** The cell (b*ar + tr, b*ac + tc) lies in box b*ar + ac, at offset b*tr + tc. */
  lemma BoxParts(b: int, n: int, ar: int, ac: int, tr: int, tc: int)
    requires IsDims(b, n) && 0 <= ar < b && 0 <= ac < b && 0 <= tr < b && 0 <= tc < b
    ensures 0 <= b * ar + tr < n && 0 <= b * ac + tc < n
    ensures BoxOf(b, b * ar + tr, b * ac + tc) == b * ar + ac
    ensures b * ((b * ar + tr) % b) + (b * ac + tc) % b == b * tr + tc
  {
    BlockPart(b, n, ar, tr);
    BlockPart(b, n, ac, tc);
  }

  /** A row of box a: its box cell coordinates give back the box and the offset. */
  lemma BoxMembers(b: int, n: int, r: int, c: int)
    requires IsDims(b, n) && 0 <= r < n && 0 <= c < n
    ensures b * (BoxOf(b, r, c) / b) + (b * (r % b) + c % b) / b == r
    ensures b * (BoxOf(b, r, c) % b) + (b * (r % b) + c % b) % b == c
  {
    LowBound(b, r);
    LowBound(b, c);
    BoxParts(b, n, r / b, r % b, c / b, c % b);
    DivMod(b, r);
    DivMod(b, c);
  }

  /** Row (a, e, t) is member t of cell column a*n + e. */
  lemma CellMember(b: int, n: int, a: int, e: int, t: int)
    requires IsDims(b, n) && 0 <= a < n && 0 <= e < n && 0 <= t < n
    ensures 0 <= RowId(n, a, e, t) < n * n * n
    ensures FamilyColumn(b, n, 0, RowId(n, a, e, t)) == 0 * n * n + a * n + e
    ensures MemberIndex(b, n, 0, RowId(n, a, e, t)) == t
  {
    DecodeRowId(n, a, e, t);
  }

  /** Row (a, t, e) is member t of row column n*n + a*n + e. */
  lemma RowMember(b: int, n: int, a: int, e: int, t: int)
    requires IsDims(b, n) && 0 <= a < n && 0 <= e < n && 0 <= t < n
    ensures 0 <= RowId(n, a, t, e) < n * n * n
    ensures FamilyColumn(b, n, 1, RowId(n, a, t, e)) == 1 * n * n + a * n + e
    ensures MemberIndex(b, n, 1, RowId(n, a, t, e)) == t
  {
    DecodeRowId(n, a, t, e);
    SplitHigh(n, a, t, e);
  }

  /** Row (t, a, e) is member t of column column 2*n*n + a*n + e. */
  lemma ColMember(b: int, n: int, a: int, e: int, t: int)
    requires IsDims(b, n) && 0 <= a < n && 0 <= e < n && 0 <= t < n
    ensures 0 <= RowId(n, t, a, e) < n * n * n
    ensures FamilyColumn(b, n, 2, RowId(n, t, a, e)) == 2 * n * n + a * n + e
    ensures MemberIndex(b, n, 2, RowId(n, t, a, e)) == t
  {
    DecodeRowId(n, t, a, e);
    SplitHigh(n, t, a, e);
  }

  /** The cell at offset t of box a, with digit e, is member t of box column 3*n*n + a*n + e. */
  lemma BoxCellMember(b: int, n: int, a: int, e: int, t: int)
    requires IsDims(b, n) && 0 <= a < n && 0 <= e < n && 0 <= t < n
    ensures 0 <= b * (a / b) + t / b < n && 0 <= b * (a % b) + t % b < n
    ensures 0 <= RowId(n, b * (a / b) + t / b, b * (a % b) + t % b, e) < n * n * n
    ensures FamilyColumn(b, n, 3, RowId(n, b * (a / b) + t / b, b * (a % b) + t % b, e)) == 3 * n * n + a * n + e
    ensures MemberIndex(b, n, 3, RowId(n, b * (a / b) + t / b, b * (a % b) + t % b, e)) == t
  {
    BoxCoordinates(b, n, a, t);
    var r := b * (a / b) + t / b;
    var c := b * (a % b) + t % b;
    BoxColumnOfRowId(b, n, r, c, e);
    DecodeRowId(n, r, c, e);
    assert n * a == a * n;
  }

  /** Member row t of column j (of band k, box or line a, digit or cell e). */
  lemma MemberRowParts(b: int, n: int, k: int, a: int, e: int, t: int)
    requires IsDims(b, n) && 0 <= k < 4 && 0 <= a < n && 0 <= e < n && 0 <= t < n
    ensures 0 <= MemberRow(b, n, k * n * n + a * n + e, t) < n * n * n
    ensures FamilyColumn(b, n, k, MemberRow(b, n, k * n * n + a * n + e, t)) == k * n * n + a * n + e
    ensures MemberIndex(b, n, k, MemberRow(b, n, k * n * n + a * n + e, t)) == t
  {
    ColumnParts(n, k, a, e);
    if k == 0 {
      CellMember(b, n, a, e, t);
    } else if k == 1 {
      RowMember(b, n, a, e, t);
    } else if k == 2 {
      ColMember(b, n, a, e, t);
    } else {
      BoxCellMember(b, n, a, e, t);
    }
  }

  /** Row (r, c, d) is member d of its cell column, c of its row column and r of its column column. */
  lemma LineMembers(b: int, n: int, r: int, c: int, d: int)
    requires IsDims(b, n) && 0 <= r < n && 0 <= c < n && 0 <= d < n
    ensures MemberRow(b, n, 0 * n * n + r * n + c, d) == RowId(n, r, c, d)
    ensures MemberRow(b, n, 1 * n * n + r * n + d, c) == RowId(n, r, c, d)
    ensures MemberRow(b, n, 2 * n * n + c * n + d, r) == RowId(n, r, c, d)
  {
    ColumnParts(n, 0, r, c);
    ColumnParts(n, 1, r, d);
    ColumnParts(n, 2, c, d);
  }

  /** Row (r, c, d) is member b*(r%b) + c%b of its box column. */
  lemma BoxMember(b: int, n: int, r: int, c: int, d: int)
    requires IsDims(b, n) && 0 <= r < n && 0 <= c < n && 0 <= d < n
    ensures 0 <= BoxOf(b, r, c) < n
    ensures MemberRow(b, n, 3 * n * n + BoxOf(b, r, c) * n + d, b * (r % b) + c % b) == RowId(n, r, c, d)
  {
    BoxOfBound(b, r, c);
    ColumnParts(n, 3, BoxOf(b, r, c), d);
    BoxMembers(b, n, r, c);
  }

  /** Every in-range row is the member row of each of its four columns, at its member index. */
  lemma MemberRowComplete(b: int, n: int, k: int, x: int)
    requires IsDims(b, n) && 0 <= k < 4 && 0 <= x < n * n * n
    ensures 0 <= MemberIndex(b, n, k, x) < n
    ensures MemberRow(b, n, FamilyColumn(b, n, k, x), MemberIndex(b, n, k, x)) == x
  {
    EncodeDecode(n, x);
    var r, c, d := GridRow(n, x), GridCol(n, x), GridDigit(n, x);
    ColumnsOfRowId(b, n, r, c, d);
    if k < 3 {
      LineMembers(b, n, r, c, d);
    } else {
      BoxMember(b, n, r, c, d);
      LowBound(b, r);
      LowBound(b, c);
      BlockPart(b, n, r % b, c % b);
      assert n * BoxOf(b, r, c) == BoxOf(b, r, c) * n;
    }
  }

  // ---------------------------------------------------------------------
  // Every column is covered by exactly n rows
  // ---------------------------------------------------------------------

  /** The band of a column index below 4n^2 is below 4. */
  lemma BandBound(n: int, j: int)
    requires n >= 1 && 0 <= j < 4 * n * n
    ensures 0 <= j / (n * n) < 4
  {
    var nn := n * n;
    MulAssoc(4, n, n);
    DivBound(j, nn, 4);
  }

  lemma DivBound(x: int, m: int, q: int)
    requires m >= 1 && 0 <= x < q * m
    ensures 0 <= x / m < q
  {
    var k := x / m;
    assert x == k * m + x % m;
    if k >= q {
      MulLeLemma(q, k, m);
      assert false;
    }
  }

  /** x and its remainder by n*n agree modulo n. */
  lemma ModOfMod(n: int, x: int)
    requires n >= 1
    ensures x % n == (x % (n * n)) % n
  {
    var k, low := x / (n * n), x % (n * n);
    var a, e := low / n, low % n;
    Recompose(n, x, k, low, a, e);
    Regroup(n, k, a, e);
    SplitLow(n, k * n + a, e);
  }

  /** x below some multiple of n*n is its quotient, line and digit recombined. */
  lemma SplitColumn(n: int, x: int)
    requires n >= 1 && 0 <= x
    ensures 0 <= (x % (n * n)) / n < n
    ensures x == (x / (n * n)) * n * n + ((x % (n * n)) / n) * n + (x % (n * n)) % n
  {
    var k, low := x / (n * n), x % (n * n);
    LowBound(n, low);
    Recompose(n, x, k, low, low / n, low % n);
  }

  /** Splits a column index below 4n^2 into band, line and digit parts. */
  lemma ColumnSplit(n: int, j: int)
    requires n >= 1 && 0 <= j < 4 * n * n
    ensures 0 <= j / (n * n) < 4
    ensures 0 <= (j % (n * n)) / n < n && 0 <= j % n < n
    ensures j == (j / (n * n)) * n * n + ((j % (n * n)) / n) * n + j % n
  {
    BandBound(n, j);
    SplitColumn(n, j);
    ModOfMod(n, j);
  }

  /** Row x (below n^3) covers column j exactly when it is one of j's member rows. */
  lemma CoversIffMember(b: int, n: int, j: int, x: int)
    requires IsDims(b, n) && 0 <= j < 4 * n * n && 0 <= x < n * n * n
    ensures Covers(b, n, x, j) <==> exists t :: 0 <= t < n && MemberRow(b, n, j, t) == x
  {
    ColumnSplit(n, j);
    var k, a, e := j / (n * n), (j % (n * n)) / n, j % n;
    if Covers(b, n, x, j) {
      var k' :| 0 <= k' < 4 && FamilyColumn(b, n, k', x) == j;
      MemberRowComplete(b, n, k', x);
    }
    if t :| 0 <= t < n && MemberRow(b, n, j, t) == x {
      MemberRowParts(b, n, k, a, e, t);
    }
  }

  /** Distinct member indices give distinct rows. */
  lemma MemberRowInjective(b: int, n: int, j: int, t: int, t': int)
    requires IsDims(b, n) && 0 <= j < 4 * n * n && 0 <= t < n && 0 <= t' < n
    requires MemberRow(b, n, j, t) == MemberRow(b, n, j, t')
    ensures t == t'
  {
    ColumnSplit(n, j);
    var k, a, e := j / (n * n), (j % (n * n)) / n, j % n;
    MemberRowParts(b, n, k, a, e, t);
    MemberRowParts(b, n, k, a, e, t');
  }

  /** Number of member indices t < m whose row is below bound. */
  function MembersBelow(b: int, n: int, j: int, m: int, bound: int): nat
    requires IsDims(b, n)
    decreases m
  {
    if m <= 0 then 0
    else MembersBelow(b, n, j, m - 1, bound) + (if MemberRow(b, n, j, m - 1) < bound then 1 else 0)
  }

  /** Number of member indices t < m whose row is x. */
  function MembersAt(b: int, n: int, j: int, m: int, x: int): nat
    requires IsDims(b, n)
    decreases m
  {
    if m <= 0 then 0
    else MembersAt(b, n, j, m - 1, x) + (if MemberRow(b, n, j, m - 1) == x then 1 else 0)
  }

  lemma {:induction false} MembersBelowStep(b: int, n: int, j: int, m: int, x: int)
    requires IsDims(b, n)
    ensures MembersBelow(b, n, j, m, x + 1) == MembersBelow(b, n, j, m, x) + MembersAt(b, n, j, m, x)
    decreases m
  {
    if m > 0 {
      MembersBelowStep(b, n, j, m - 1, x);
    }
  }

  lemma {:induction false} MembersAtAtMostOne(b: int, n: int, j: int, m: int, x: int)
    requires IsDims(b, n) && 0 <= j < 4 * n * n && 0 <= m <= n
    ensures MembersAt(b, n, j, m, x) == (if exists t :: 0 <= t < m && MemberRow(b, n, j, t) == x then 1 else 0)
    decreases m
  {
    if m > 0 {
      MembersAtAtMostOne(b, n, j, m - 1, x);
      if MemberRow(b, n, j, m - 1) == x {
        forall t | 0 <= t < m - 1 && MemberRow(b, n, j, t) == x
          ensures false
        {
          MemberRowInjective(b, n, j, t, m - 1);
        }
      }
    }
  }

  lemma {:induction false} MembersBelowAll(b: int, n: int, j: int, m: int)
    requires IsDims(b, n) && 0 <= j < 4 * n * n && 0 <= m <= n
    ensures MembersBelow(b, n, j, m, n * n * n) == m
    ensures MembersBelow(b, n, j, m, 0) == 0
    decreases m
  {
    if m > 0 {
      MembersBelowAll(b, n, j, m - 1);
      ColumnSplit(n, j);
      MemberRowParts(b, n, j / (n * n), (j % (n * n)) / n, j % n, m - 1);
    }
  }

  lemma {:induction false} CoveringRowsCount(b: int, n: int, j: int, k: int)
    requires IsDims(b, n) && 0 <= j < 4 * n * n && 0 <= k <= n * n * n
    ensures |CoveringRows(b, n, j, k)| == MembersBelow(b, n, j, n, k)
    decreases k
  {
    if k == 0 {
      MembersBelowAll(b, n, j, n);
    } else {
      CoveringRowsCount(b, n, j, k - 1);
      MembersBelowStep(b, n, j, n, k - 1);
      MembersAtAtMostOne(b, n, j, n, k - 1);
      CoversIffMember(b, n, j, k - 1);
    }
  }

  /** Column j is covered by exactly n rows of the matrix, which is its initial count. */
  lemma ColumnHasNRows(b: int, n: int, j: int)
    requires IsDims(b, n) && 0 <= j < 4 * n * n
    ensures |CoveringRows(b, n, j, n * n * n)| == n
  {
    MulLeLemma(1, n, n);
    MulLeLemma(1, n, n * n);
    CoveringRowsCount(b, n, j, n * n * n);
    MembersBelowAll(b, n, j, n);
  }
}
