/**
 * The cover matrix of the Algorithm X solver, as values.
 *
 * Every matrix row x has an entry in each of its four family columns
 * Layout.FamilyColumn(b, n, k, x) (k = 0 cell, 1 row, 2 column, 3 box) and
 * no other entry is ever set, so a row is described by four bits, one per
 * family.  removeConstraints and resetConstraintsByRow visit every row and
 * run four `if` blocks on it in family order; block k fires when the row
 * still has its entry in the covering row's family-k column, and then
 * clears (remove) or sets (reset) the row's other three entries and moves
 * their column counts down or up by one.
 */
module AlgorXModel {
  import opened Layout

  /** The entries of one matrix row at its four family columns. */
  type Bits = seq<bool>

  /** Only the entry of family k is set. */
  function Single(k: int): (s: Bits)
    ensures |s| == 4 && forall m :: 0 <= m < 4 ==> s[m] == (m == k)
  {
    seq(4, m => m == k)
  }

  /** All four entries are set. */
  function Full(): (s: Bits)
    ensures |s| == 4 && forall m :: 0 <= m < 4 ==> s[m]
  {
    [true, true, true, true]
  }

  /** A count change of one at every family except k. */
  function Others(k: int): (d: seq<int>)
    ensures |d| == 4 && forall m :: 0 <= m < 4 ==> d[m] == if m == k then 0 else 1
  {
    seq(4, m => if m == k then 0 else 1)
  }

  function Zeros(): seq<int>
  {
    [0, 0, 0, 0]
  }

  function Plus(u: seq<int>, v: seq<int>): (w: seq<int>)
    requires |u| == 4 && |v| == 4
    ensures |w| == 4 && forall m :: 0 <= m < 4 ==> w[m] == u[m] + v[m]
  {
    seq(4, m requires 0 <= m < 4 => u[m] + v[m])
  }

  /** What the blocks have done to a row so far: its bits and the count change at each of its columns. */
  datatype Effect = Effect(bits: Bits, delta: seq<int>)

  predicate Sized(e: Effect)
  {
    |e.bits| == 4 && |e.delta| == 4
  }

  /** Block k of removeConstraints: when it fires the row keeps only its family-k entry. */
  function RemoveIf(e: Effect, hit: bool, k: int): (e': Effect)
    requires Sized(e) && 0 <= k < 4
    ensures Sized(e')
  {
    if hit && e.bits[k] then Effect(Single(k), Plus(e.delta, Others(k))) else e
  }

  /** Block k of resetConstraintsByRow: when it fires the row has all four entries again. */
  function ResetIf(e: Effect, hit: bool, k: int): (e': Effect)
    requires Sized(e) && 0 <= k < 4
    ensures Sized(e')
  {
    if hit && e.bits[k] then Effect(Full(), Plus(e.delta, Others(k))) else e
  }

  /**
   * The operation applied to every row: the source's remove and reset,
   * and the reset with `else if` blocks that undoes exactly what remove did.
   */
  datatype Op = Remove | Reset | Restore

  /** The first family m >= k whose block would fire, or 4. */
  function FirstHit(bits: Bits, hits: seq<bool>, k: nat): (m: nat)
    requires |bits| == 4 && |hits| == 4 && k <= 4
    ensures k <= m <= 4
    ensures m < 4 ==> hits[m] && bits[m]
    ensures forall m' :: k <= m' < m ==> !(hits[m'] && bits[m'])
    decreases 4 - k
  {
    if k == 4 then 4 else if hits[k] && bits[k] then k else FirstHit(bits, hits, k + 1)
  }

  /** The effect of op on a row with the given bits; hits[k] says its family-k column is the covering row's. */
  function RowStep(op: Op, bits: Bits, hits: seq<bool>): (e: Effect)
    requires |bits| == 4 && |hits| == 4
    ensures Sized(e)
  {
    var e := Effect(bits, Zeros());
    match op
    case Remove => RemoveIf(RemoveIf(RemoveIf(RemoveIf(e, hits[0], 0), hits[1], 1), hits[2], 2), hits[3], 3)
    case Reset => ResetIf(ResetIf(ResetIf(ResetIf(e, hits[0], 0), hits[1], 1), hits[2], 2), hits[3], 3)
    case Restore =>
      var k := FirstHit(bits, hits, 0);
      if k == 4 then e else Effect(Full(), Others(k))
  }

  // ---------------------------------------------------------------------
  // One row
  // ---------------------------------------------------------------------

  /** remove: only the first firing block acts; the row keeps that one entry and the other three columns count down. */
  lemma RemoveRowFirst(bits: Bits, hits: seq<bool>)
    requires |bits| == 4 && |hits| == 4
    ensures var k := FirstHit(bits, hits, 0);
      RowStep(Remove, bits, hits) == if k == 4 then Effect(bits, Zeros()) else Effect(Single(k), Others(k))
  {
    var k := FirstHit(bits, hits, 0);
    if k < 4 {
      assert Plus(Zeros(), Others(k)) == Others(k);
    }
  }

  /** remove never sets an entry and never raises a count. */
  lemma RemoveRowMonotone(bits: Bits, hits: seq<bool>)
    requires |bits| == 4 && |hits| == 4
    ensures forall m :: 0 <= m < 4 && RowStep(Remove, bits, hits).bits[m] ==> bits[m]
    ensures forall m :: 0 <= m < 4 ==> RowStep(Remove, bits, hits).delta[m] >= 0
  {
    RemoveRowFirst(bits, hits);
  }

  /** reset never clears an entry and never lowers a count. */
  lemma ResetRowMonotone(bits: Bits, hits: seq<bool>)
    requires |bits| == 4 && |hits| == 4
    ensures forall m :: 0 <= m < 4 && bits[m] ==> RowStep(Reset, bits, hits).bits[m]
    ensures forall m :: 0 <= m < 4 ==> RowStep(Reset, bits, hits).delta[m] >= 0
  {
  }

  /** reset sets the same entries as the corrected reset, whatever the row. */
  lemma ResetRowBits(bits: Bits, hits: seq<bool>)
    requires |bits| == 4 && |hits| == 4
    ensures RowStep(Reset, bits, hits).bits == RowStep(Restore, bits, hits).bits
  {
  }

  /**
   * A row that is full whenever one of its blocks fires is restored by
   * remove followed by either reset, and the corrected reset gives back
   * exactly the counts remove took.
   */
  lemma UndoRow(bits: Bits, hits: seq<bool>)
    requires |bits| == 4 && |hits| == 4
    requires FirstHit(bits, hits, 0) < 4 ==> bits == Full()
    ensures var e := RowStep(Remove, bits, hits);
      RowStep(Reset, e.bits, hits).bits == bits &&
      RowStep(Restore, e.bits, hits) == Effect(bits, e.delta)
  {
    RemoveRowFirst(bits, hits);
    var k := FirstHit(bits, hits, 0);
    if k < 4 {
      assert FirstHit(Single(k), hits, 0) == k;
    }
    ResetRowBits(RowStep(Remove, bits, hits).bits, hits);
  }

  // ---------------------------------------------------------------------
  // The whole matrix
  // ---------------------------------------------------------------------

  /** Every element is a sequence of four. */
  predicate Fours<T>(s: seq<seq<T>>)
  {
    forall x :: 0 <= x < |s| ==> |s[x]| == 4
  }

  /**
   * lay[x][k] is the family-k column of row x: every column lies below
   * width, and two rows share a column only within one family.
   */
  predicate WellLaid(lay: seq<seq<int>>, width: int)
  {
    Fours(lay) &&
    (forall x, k :: 0 <= x < |lay| && 0 <= k < 4 ==> 0 <= lay[x][k] < width) &&
    forall x, y {:trigger RowsApart(lay[x], lay[y])} :: 0 <= x < |lay| && 0 <= y < |lay| ==> RowsApart(lay[x], lay[y])
  }

  /** Two rows' columns meet only within one family. */
  predicate RowsApart(a: seq<int>, c: seq<int>)
  {
    forall k, k' :: 0 <= k < |a| && 0 <= k' < |c| && a[k] == c[k'] ==> k == k'
  }

  /** hits[k]: row x has the same family-k column as the covering row r. */
  function Hits(lay: seq<seq<int>>, x: int, r: int): (hits: seq<bool>)
    requires Fours(lay) && 0 <= x < |lay| && 0 <= r < |lay|
    ensures |hits| == 4 && forall k :: 0 <= k < 4 ==> hits[k] == (lay[x][k] == lay[r][k])
  {
    seq(4, k requires 0 <= k < 4 => lay[x][k] == lay[r][k])
  }

  /** The part of a row's count change d that falls on column j. */
  function Contribution(cols: seq<int>, d: seq<int>, j: int): int
    requires |cols| == 4 && |d| == 4
  {
    (if cols[0] == j then d[0] else 0) + (if cols[1] == j then d[1] else 0) +
    (if cols[2] == j then d[2] else 0) + (if cols[3] == j then d[3] else 0)
  }

  /** The total count change op makes at column j over rows 0 .. m-1. */
  function Total(op: Op, table: seq<Bits>, lay: seq<seq<int>>, r: int, j: int, m: int): int
    requires Fours(table) && Fours(lay) && |table| == |lay| && 0 <= r < |lay| && 0 <= m <= |table|
    decreases m
  {
    if m == 0 then 0
    else
      Total(op, table, lay, r, j, m - 1) +
      Contribution(lay[m - 1], RowStep(op, table[m - 1], Hits(lay, m - 1, r)).delta, j)
  }

  /** The matrix rows' bits, the column counts colSums and the flags colInclusion. */
  datatype XState = XState(table: seq<Bits>, sums: seq<int>, incl: seq<bool>)

  /** One row of four bits per row of lay, and one count and one flag per column. */
  predicate Shaped(s: XState, lay: seq<seq<int>>)
  {
    WellLaid(lay, |s.incl|) && |s.table| == |lay| && Fours(s.table) && |s.sums| == |s.incl|
  }

  /** The flags at the four columns set to v. */
  function InclAfter(incl: seq<bool>, cols: seq<int>, v: bool): (incl': seq<bool>)
    requires |cols| == 4 && forall k :: 0 <= k < 4 ==> 0 <= cols[k] < |incl|
    ensures |incl'| == |incl|
    ensures forall j :: 0 <= j < |incl| ==> incl'[j] == if j in cols then v else incl[j]
  {
    incl[cols[0] := v][cols[1] := v][cols[2] := v][cols[3] := v]
  }

  /** Every row's bits after op on covering row r. */
  function TableAfter(op: Op, table: seq<Bits>, lay: seq<seq<int>>, r: int): (t: seq<Bits>)
    requires Fours(table) && Fours(lay) && |table| == |lay| && 0 <= r < |lay|
    ensures |t| == |table| && Fours(t)
    ensures forall x :: 0 <= x < |t| ==> t[x] == RowStep(op, table[x], Hits(lay, x, r)).bits
  {
    seq(|table|, x requires 0 <= x < |table| => RowStep(op, table[x], Hits(lay, x, r)).bits)
  }

  /** Every column's count after op on covering row r: remove lowers it, both resets raise it. */
  function SumsAfter(op: Op, sums: seq<int>, table: seq<Bits>, lay: seq<seq<int>>, r: int): (u: seq<int>)
    requires Fours(table) && Fours(lay) && |table| == |lay| && 0 <= r < |lay|
    ensures |u| == |sums|
    ensures forall j :: 0 <= j < |u| ==>
      u[j] == if op == Remove then sums[j] - Total(op, table, lay, r, j, |table|) else sums[j] + Total(op, table, lay, r, j, |table|)
  {
    seq(|sums|, j requires 0 <= j < |sums| =>
      if op == Remove then sums[j] - Total(op, table, lay, r, j, |table|)
      else sums[j] + Total(op, table, lay, r, j, |table|))
  }

  /** The state after op on covering row r: flags, every row's bits, and every column's count. */
  function Apply(op: Op, s: XState, lay: seq<seq<int>>, r: int): (s': XState)
    requires Shaped(s, lay) && 0 <= r < |lay|
    ensures Shaped(s', lay)
  {
    XState(TableAfter(op, s.table, lay, r), SumsAfter(op, s.sums, s.table, lay, r),
           InclAfter(s.incl, lay[r], op != Remove))
  }

  /** The state the constructor builds: every row full, every count set to count, every column included. */
  function Initial(rows: nat, width: nat, count: int): (s: XState)
    ensures |s.table| == rows && |s.sums| == width && |s.incl| == width && Fours(s.table)
  {
    XState(seq(rows, x => Full()), seq(width, j => count), seq(width, j => true))
  }

  // ---------------------------------------------------------------------
  // The Sudoku layout
  // ---------------------------------------------------------------------

  /** The four family columns of every row of the order-n cover matrix. */
  function ColumnTable(b: int, n: int): (lay: seq<seq<int>>)
    requires IsDims(b, n)
    ensures |lay| == n * n * n && Fours(lay)
    ensures forall x, k :: 0 <= x < |lay| && 0 <= k < 4 ==> lay[x][k] == FamilyColumn(b, n, k, x)
  {
    TableUpTo(b, n, n * n * n)
  }

  /** The four family columns of row x, in family order. */
  function FamilyColumns(b: int, n: int, x: int): (cs: seq<int>)
    requires IsDims(b, n)
    ensures |cs| == 4 && forall k :: 0 <= k < 4 ==> cs[k] == FamilyColumn(b, n, k, x)
  {
    [FamilyColumn(b, n, 0, x), FamilyColumn(b, n, 1, x), FamilyColumn(b, n, 2, x), FamilyColumn(b, n, 3, x)]
  }

  /** The family columns of the rows below m. */
  function TableUpTo(b: int, n: int, m: int): (lay: seq<seq<int>>)
    requires IsDims(b, n) && 0 <= m
    ensures |lay| == m && forall x :: 0 <= x < m ==> lay[x] == FamilyColumns(b, n, x)
    decreases m
  {
    if m == 0 then [] else TableUpTo(b, n, m - 1) + [FamilyColumns(b, n, m - 1)]
  }

  /** The index functions keep each family in its own band of [0, 4n^2). */
  lemma ColumnTableLaid(b: int, n: int)
    requires IsDims(b, n)
    ensures WellLaid(ColumnTable(b, n), 4 * n * n)
  {
    var lay := ColumnTable(b, n);
    forall x | 0 <= x < |lay|
      ensures 0 <= lay[x][0] < n * n && n * n <= lay[x][1] < 2 * n * n
      ensures 2 * n * n <= lay[x][2] < 3 * n * n && 3 * n * n <= lay[x][3] < 4 * n * n
    {
      ColumnBands(b, n, x);
    }
  }

  /**
   * lay is the column table of the order-n matrix.  The quantifier fires
   * only on a computed FamilyColumn, so that lay's entries do not unfold
   * into the index arithmetic wherever they appear.
   */
  predicate Laid(lay: seq<seq<int>>, b: int, n: int)
    requires IsDims(b, n)
  {
    |lay| == n * n * n && Fours(lay) &&
    forall x, k {:trigger FamilyColumn(b, n, k, x)} :: 0 <= x < |lay| && 0 <= k < 4 ==> lay[x][k] == FamilyColumn(b, n, k, x)
  }

  /** The one-cell grid (b = n = 1) has one row, with columns 0, 1, 2, 3. */
  lemma OneCellTable(b: int, n: int)
    requires b == 1 && n == 1
    ensures ColumnTable(b, n) == [[0, 1, 2, 3]]
  {
    var lay := ColumnTable(b, n);
    assert |lay| == 1;
    assert lay[0][0] == CellColumn(n, 0) == 0;
    assert lay[0][1] == RowColumn(n, 0) == 1;
    assert lay[0][2] == ColColumn(n, 0) == 2;
    assert lay[0][3] == BoxColumn(b, n, 0) == 3;
    assert lay[0] == [0, 1, 2, 3];
  }

  /** The constructor's matrix: each row has exactly its four columns set and every column counts n. */
  function InitialMatrix(b: int, n: int): (s: XState)
    requires IsDims(b, n)
    ensures Shaped(s, ColumnTable(b, n))
  {
    ColumnTableLaid(b, n);
    Initial(n * n * n, 4 * n * n, n)
  }

  // ---------------------------------------------------------------------
  // Undo
  // ---------------------------------------------------------------------

  /** Every row whose block would fire for covering row r is full. */
  predicate FiringRowsFull(table: seq<Bits>, lay: seq<seq<int>>, r: int)
    requires Fours(table) && Fours(lay) && |table| == |lay| && 0 <= r < |lay|
  {
    forall x :: 0 <= x < |table| && FirstHit(table[x], Hits(lay, x, r), 0) < 4 ==> table[x] == Full()
  }

  /** Covering row r may be removed and undone: its firing rows are full and its columns are included. */
  predicate Ready(s: XState, lay: seq<seq<int>>, r: int)
    requires Shaped(s, lay) && 0 <= r < |lay|
  {
    FiringRowsFull(s.table, lay, r) && forall k :: 0 <= k < 4 ==> s.incl[lay[r][k]]
  }

  /** Two totals that agree below m - 1 and on row m - 1 agree below m. */
  lemma TotalStep(op: Op, t: seq<Bits>, op': Op, t': seq<Bits>, lay: seq<seq<int>>, r: int, j: int, m: int)
    requires Fours(t) && Fours(t') && Fours(lay) && |t| == |lay| && |t'| == |lay| && 0 <= r < |lay| && 0 < m <= |lay|
    requires Total(op, t, lay, r, j, m - 1) == Total(op', t', lay, r, j, m - 1)
    requires RowStep(op, t[m - 1], Hits(lay, m - 1, r)).delta == RowStep(op', t'[m - 1], Hits(lay, m - 1, r)).delta
    ensures Total(op, t, lay, r, j, m) == Total(op', t', lay, r, j, m)
  {
  }

  /** Under FiringRowsFull, the corrected reset hands back at every column exactly the count remove took. */
  lemma {:induction false} UndoTotal(table: seq<Bits>, lay: seq<seq<int>>, r: int, j: int, m: int)
    requires Fours(table) && Fours(lay) && |table| == |lay| && 0 <= r < |lay| && 0 <= m <= |table|
    requires FiringRowsFull(table, lay, r)
    ensures Total(Restore, TableAfter(Remove, table, lay, r), lay, r, j, m) == Total(Remove, table, lay, r, j, m)
    decreases m
  {
    if m > 0 {
      UndoTotal(table, lay, r, j, m - 1);
      UndoRow(table[m - 1], Hits(lay, m - 1, r));
      TotalStep(Restore, TableAfter(Remove, table, lay, r), Remove, table, lay, r, j, m);
    }
  }

  /**
   * resetConstraintsByRow right after removeConstraints on the same row
   * restores the flags and every matrix entry; the corrected reset also
   * restores every column count.
   */
  lemma Undo(s: XState, lay: seq<seq<int>>, r: int)
    requires Shaped(s, lay) && 0 <= r < |lay| && Ready(s, lay, r)
    ensures Apply(Restore, Apply(Remove, s, lay, r), lay, r) == s
    ensures Apply(Reset, Apply(Remove, s, lay, r), lay, r).table == s.table
    ensures Apply(Reset, Apply(Remove, s, lay, r), lay, r).incl == s.incl
  {
    var s1 := Apply(Remove, s, lay, r);
    var s2 := Apply(Restore, s1, lay, r);
    var s3 := Apply(Reset, s1, lay, r);
    forall x | 0 <= x < |s.table|
      ensures s2.table[x] == s.table[x] && s3.table[x] == s.table[x]
    {
      UndoRow(s.table[x], Hits(lay, x, r));
      ResetRowBits(s1.table[x], Hits(lay, x, r));
    }
    forall j | 0 <= j < |s.sums|
      ensures s2.sums[j] == s.sums[j]
    {
      UndoTotal(s.table, lay, r, j, |s.table|);
    }
    assert s2.incl == s.incl;
    assert s3.incl == s.incl;
  }

  // ---------------------------------------------------------------------
  // The over-count on the one-cell grid
  // ---------------------------------------------------------------------

  /** The count change op makes on a one-row matrix is the row's own change. */
  lemma OneRowTotal(op: Op, bits: Bits, j: int)
    requires |bits| == 4 && 0 <= j < 4
    ensures Hits([[0, 1, 2, 3]], 0, 0) == [true, true, true, true]
    ensures Total(op, [bits], [[0, 1, 2, 3]], 0, j, 1) == RowStep(op, bits, [true, true, true, true]).delta[j]
  {
    var h := Hits([[0, 1, 2, 3]], 0, 0);
    assert h[0] && h[1] && h[2] && h[3];
  }

  /** op on a one-row matrix changes the row by its own step and each count by the row's own change. */
  lemma OneRowApply(op: Op, s: XState)
    requires Shaped(s, [[0, 1, 2, 3]])
    ensures var e := RowStep(op, s.table[0], [true, true, true, true]);
      Apply(op, s, [[0, 1, 2, 3]], 0).table == [e.bits] &&
      Apply(op, s, [[0, 1, 2, 3]], 0).sums[0] == if op == Remove then s.sums[0] - e.delta[0] else s.sums[0] + e.delta[0]
  {
    OneRowTotal(op, s.table[0], 0);
    var t := TableAfter(op, s.table, [[0, 1, 2, 3]], 0);
    assert t[0] == RowStep(op, s.table[0], [true, true, true, true]).bits;
    assert t == [t[0]];
  }

  /** The row steps of the one-cell example. */
  lemma OneCellSteps()
    ensures RowStep(Remove, Full(), [true, true, true, true]) == Effect(Single(0), [0, 1, 1, 1])
    ensures RowStep(Reset, Single(0), [true, true, true, true]).delta[0] == 3
    ensures RowStep(Restore, Single(0), [true, true, true, true]).delta[0] == 0
  {
  }

  /** The one-cell example on the literal one-row matrix. */
  lemma OneRowOverCounts()
    ensures Apply(Reset, Apply(Remove, Initial(1, 4, 1), [[0, 1, 2, 3]], 0), [[0, 1, 2, 3]], 0).sums[0] == 4
    ensures Apply(Restore, Apply(Remove, Initial(1, 4, 1), [[0, 1, 2, 3]], 0), [[0, 1, 2, 3]], 0).sums[0] == 1
  {
    var lay := [[0, 1, 2, 3]];
    assert WellLaid(lay, 4);
    var s0 := Initial(1, 4, 1);
    assert s0.table[0] == Full();
    OneCellSteps();
    OneRowApply(Remove, s0);
    var s1 := Apply(Remove, s0, lay, 0);
    assert s1.table[0] == Single(0);
    OneRowApply(Reset, s1);
    OneRowApply(Restore, s1);
  }

  /**
   * The source's reset over-counts: on the one-cell grid (b = n = 1),
   * resetConstraintsByRow(0) right after removeConstraints(0) leaves the
   * first count at 4 where the constructor set 1; the corrected reset
   * leaves 1.
   */
  lemma ResetOverCounts()
    ensures InitialMatrix(1, 1).sums[0] == 1
    ensures var lay := ColumnTable(1, 1);
      Apply(Reset, Apply(Remove, InitialMatrix(1, 1), lay, 0), lay, 0).sums[0] == 4
    ensures var lay := ColumnTable(1, 1);
      Apply(Restore, Apply(Remove, InitialMatrix(1, 1), lay, 0), lay, 0).sums[0] == 1
  {
    OneCellTable(1, 1);
    OneRowOverCounts();
  }

  // ---------------------------------------------------------------------
  // What remove and reset may change
  // ---------------------------------------------------------------------

  /** remove and the source's reset move every count one way only. */
  lemma {:induction false} TotalNonnegative(op: Op, table: seq<Bits>, lay: seq<seq<int>>, r: int, j: int, m: int)
    requires Fours(table) && Fours(lay) && |table| == |lay| && 0 <= r < |lay| && 0 <= m <= |table| && op != Restore
    ensures Total(op, table, lay, r, j, m) >= 0
    decreases m
  {
    if m > 0 {
      TotalNonnegative(op, table, lay, r, j, m - 1);
      if op == Remove {
        RemoveRowMonotone(table[m - 1], Hits(lay, m - 1, r));
      } else {
        ResetRowMonotone(table[m - 1], Hits(lay, m - 1, r));
      }
    }
  }

  /**
   * removeConstraints clears the flags of exactly the covering row's four
   * columns, never sets an entry and never raises a count.
   */
  lemma RemoveMonotone(s: XState, lay: seq<seq<int>>, r: int)
    requires Shaped(s, lay) && 0 <= r < |lay|
    ensures var s' := Apply(Remove, s, lay, r);
      (forall j :: 0 <= j < |s.incl| ==> s'.incl[j] == (s.incl[j] && j !in lay[r])) &&
      (forall x, k :: 0 <= x < |s.table| && 0 <= k < 4 && s'.table[x][k] ==> s.table[x][k]) &&
      (forall j :: 0 <= j < |s.sums| ==> s'.sums[j] <= s.sums[j])
  {
    forall x | 0 <= x < |s.table|
      ensures forall k :: 0 <= k < 4 && TableAfter(Remove, s.table, lay, r)[x][k] ==> s.table[x][k]
    {
      RemoveRowMonotone(s.table[x], Hits(lay, x, r));
    }
    forall j | 0 <= j < |s.sums|
      ensures Total(Remove, s.table, lay, r, j, |s.table|) >= 0
    {
      TotalNonnegative(Remove, s.table, lay, r, j, |s.table|);
    }
  }

  /**
   * resetConstraintsByRow sets the flags of exactly the covering row's
   * four columns, never clears an entry and never lowers a count.
   */
  lemma ResetMonotone(s: XState, lay: seq<seq<int>>, r: int)
    requires Shaped(s, lay) && 0 <= r < |lay|
    ensures var s' := Apply(Reset, s, lay, r);
      (forall j :: 0 <= j < |s.incl| ==> s'.incl[j] == (s.incl[j] || j in lay[r])) &&
      (forall x, k :: 0 <= x < |s.table| && 0 <= k < 4 && s.table[x][k] ==> s'.table[x][k]) &&
      (forall j :: 0 <= j < |s.sums| ==> s'.sums[j] >= s.sums[j])
  {
    forall x | 0 <= x < |s.table|
      ensures forall k :: 0 <= k < 4 && s.table[x][k] ==> TableAfter(Reset, s.table, lay, r)[x][k]
    {
      ResetRowMonotone(s.table[x], Hits(lay, x, r));
    }
    forall j | 0 <= j < |s.sums|
      ensures Total(Reset, s.table, lay, r, j, |s.table|) >= 0
    {
      TotalNonnegative(Reset, s.table, lay, r, j, |s.table|);
    }
  }

  // ---------------------------------------------------------------------
  // The solver's invariant: every row is full or down to one entry
  // ---------------------------------------------------------------------

  /**
   * A row still has all four entries and all its columns are included, or
   * it has only its family-k entry and column k has been covered.
   */
  predicate RowSettled(bits: Bits, cols: seq<int>, incl: seq<bool>)
    requires |bits| == 4 && |cols| == 4 && forall k :: 0 <= k < 4 ==> 0 <= cols[k] < |incl|
  {
    (bits == Full() && forall k :: 0 <= k < 4 ==> incl[cols[k]]) ||
    exists k :: 0 <= k < 4 && bits == Single(k) && !incl[cols[k]]
  }

  predicate Settled(s: XState, lay: seq<seq<int>>)
    requires Shaped(s, lay)
  {
    forall x :: 0 <= x < |s.table| ==> RowSettled(s.table[x], lay[x], s.incl)
  }

  /** The constructor's matrix is settled. */
  lemma InitialSettled(b: int, n: int)
    requires IsDims(b, n)
    ensures Settled(InitialMatrix(b, n), ColumnTable(b, n))
  {
  }

  /** A full row is not down to one entry. */
  lemma FullNotSingle(k: int)
    requires 0 <= k < 4
    ensures Single(k) != Full()
  {
    assert !Single(k)[(k + 1) % 4];
  }

  /** removeConstraints on covering row r keeps row x full or down to one covered entry. */
  lemma SettledRemoveRow(s: XState, lay: seq<seq<int>>, r: int, x: int)
    requires Shaped(s, lay) && 0 <= r < |lay| && 0 <= x < |lay| && RowSettled(s.table[x], lay[x], s.incl)
    ensures RowSettled(Apply(Remove, s, lay, r).table[x], lay[x], Apply(Remove, s, lay, r).incl)
  {
    var s' := Apply(Remove, s, lay, r);
    var bits, h := s.table[x], Hits(lay, x, r);
    RemoveRowFirst(bits, h);
    var k := FirstHit(bits, h, 0);
    if k < 4 {
      assert lay[x][k] == lay[r][k] && lay[r][k] in lay[r];
      assert s'.table[x] == Single(k) && !s'.incl[lay[x][k]];
    } else if bits == Full() {
      assert s'.table[x] == bits && RowsApart(lay[r], lay[x]);
      forall m | 0 <= m < 4
        ensures s'.incl[lay[x][m]]
      {
        assert bits[m] && !h[m];
        forall m' | 0 <= m' < 4
          ensures lay[r][m'] != lay[x][m]
        {
          if m' != m {
            assert lay[r][m'] == lay[x][m] ==> m' == m;
          }
        }
        forall k' | 0 <= k' < 4 ensures Single(k') != bits { FullNotSingle(k'); }
      }
    } else {
      var k' :| 0 <= k' < 4 && bits == Single(k') && !s.incl[lay[x][k']];
      assert s'.table[x] == Single(k') && !s'.incl[lay[x][k']];
    }
  }

  /** Any removeConstraints keeps every row full or down to one covered entry. */
  lemma SettledRemove(s: XState, lay: seq<seq<int>>, r: int)
    requires Shaped(s, lay) && 0 <= r < |lay| && Settled(s, lay)
    ensures Settled(Apply(Remove, s, lay, r), lay)
  {
    forall x | 0 <= x < |s.table|
      ensures RowSettled(Apply(Remove, s, lay, r).table[x], lay[x], Apply(Remove, s, lay, r).incl)
    {
      SettledRemoveRow(s, lay, r, x);
    }
  }

  /** A settled row with an entry at an included column is full. */
  lemma PickedRowFull(s: XState, lay: seq<seq<int>>, r: int, k: int)
    requires Shaped(s, lay) && 0 <= r < |lay| && Settled(s, lay) && 0 <= k < 4
    requires s.table[r][k] && s.incl[lay[r][k]]
    ensures s.table[r] == Full()
  {
    assert RowSettled(s.table[r], lay[r], s.incl);
  }

  /** A full settled row has its four columns included. */
  lemma FullRowIncluded(s: XState, lay: seq<seq<int>>, r: int)
    requires Shaped(s, lay) && 0 <= r < |lay| && Settled(s, lay) && s.table[r] == Full()
    ensures forall k :: 0 <= k < 4 ==> s.incl[lay[r][k]]
  {
    assert RowSettled(s.table[r], lay[r], s.incl);
    forall k | 0 <= k < 4 ensures Single(k) != Full() { FullNotSingle(k); }
  }

  /** A full row of a settled matrix can be removed and undone. */
  lemma FullRowReady(s: XState, lay: seq<seq<int>>, r: int)
    requires Shaped(s, lay) && 0 <= r < |lay| && Settled(s, lay) && s.table[r] == Full()
    ensures Ready(s, lay, r)
  {
    FullRowIncluded(s, lay, r);
    forall x | 0 <= x < |s.table| && FirstHit(s.table[x], Hits(lay, x, r), 0) < 4
      ensures s.table[x] == Full()
    {
      var m := FirstHit(s.table[x], Hits(lay, x, r), 0);
      assert s.table[x][m] && lay[x][m] == lay[r][m] && s.incl[lay[x][m]];
      PickedRowFull(s, lay, x, m);
    }
  }

  /** The number of included columns below m. */
  function Active(incl: seq<bool>, m: int): (c: nat)
    requires 0 <= m <= |incl|
    ensures c <= m
    decreases m
  {
    if m == 0 then 0 else Active(incl, m - 1) + (if incl[m - 1] then 1 else 0)
  }

  /** Clearing one included flag lowers the number of included columns by one. */
  lemma {:induction false} ActiveClear(incl: seq<bool>, j: int, m: int)
    requires 0 <= j < |incl| && incl[j] && 0 <= m <= |incl|
    ensures Active(incl[j := false], m) == Active(incl, m) - (if j < m then 1 else 0)
    decreases m
  {
    if m > 0 {
      ActiveClear(incl, j, m - 1);
    }
  }

  /** Removing a row whose four columns are included lowers the number of included columns by four. */
  lemma ActiveRemove(s: XState, lay: seq<seq<int>>, r: int)
    requires Shaped(s, lay) && 0 <= r < |lay| && forall k :: 0 <= k < 4 ==> s.incl[lay[r][k]]
    ensures Active(Apply(Remove, s, lay, r).incl, |s.incl|) == Active(s.incl, |s.incl|) - 4
  {
    var c, w := lay[r], |s.incl|;
    assert c[0] != c[1] && c[0] != c[2] && c[0] != c[3] && c[1] != c[2] && c[1] != c[3] && c[2] != c[3] by {
      assert RowsApart(lay[r], lay[r]);
    }
    var i1 := s.incl[c[0] := false];
    ActiveClear(s.incl, c[0], w);
    var i2 := i1[c[1] := false];
    ActiveClear(i1, c[1], w);
    var i3 := i2[c[2] := false];
    ActiveClear(i2, c[2], w);
    ActiveClear(i3, c[3], w);
  }

  // ---------------------------------------------------------------------
  // What the counts count
  // ---------------------------------------------------------------------

  /** One per entry still set. */
  function Ones(bits: Bits): (o: seq<int>)
    requires |bits| == 4
    ensures |o| == 4 && forall k :: 0 <= k < 4 ==> o[k] == if bits[k] then 1 else 0
  {
    seq(4, k requires 0 <= k < 4 => if bits[k] then 1 else 0)
  }

  /** The number of entries still set in column j among rows 0 .. m-1. */
  function Live(table: seq<Bits>, lay: seq<seq<int>>, j: int, m: int): int
    requires Fours(table) && Fours(lay) && |table| == |lay| && 0 <= m <= |table|
    decreases m
  {
    if m == 0 then 0 else Live(table, lay, j, m - 1) + Contribution(lay[m - 1], Ones(table[m - 1]), j)
  }

  /** Every colSums entry is the number of entries set in its column. */
  predicate Counted(s: XState, lay: seq<seq<int>>)
    requires Shaped(s, lay)
  {
    forall j :: 0 <= j < |s.sums| ==> s.sums[j] == Live(s.table, lay, j, |s.table|)
  }

  /** A full row of the constructor's matrix has an entry in column j exactly when it covers j. */
  lemma FullContribution(b: int, n: int, x: int, j: int)
    requires IsDims(b, n) && 0 <= x < n * n * n
    ensures Contribution(ColumnTable(b, n)[x], Ones(Full()), j) == if Covers(b, n, x, j) then 1 else 0
  {
    var lay := ColumnTable(b, n);
    ColumnTableLaid(b, n);
    if Covers(b, n, x, j) {
      var k :| 0 <= k < 4 && FamilyColumn(b, n, k, x) == j;
      assert RowsApart(lay[x], lay[x]) && lay[x][k] == j;
    }
  }

  /** In a matrix of full rows, the rows below m with an entry in column j are the rows covering it. */
  lemma {:induction false} FullLive(table: seq<Bits>, b: int, n: int, j: int, m: int)
    requires IsDims(b, n) && |table| == n * n * n && 0 <= m <= n * n * n && Fours(table)
    requires forall x :: 0 <= x < |table| ==> table[x] == Full()
    ensures Live(table, ColumnTable(b, n), j, m) == |CoveringRows(b, n, j, m)|
    decreases m
  {
    if m > 0 {
      FullLive(table, b, n, j, m - 1);
      FullContribution(b, n, m - 1, j);
    }
  }

  /** The constructor's count n is the number of entries of every column. */
  lemma InitialCounted(b: int, n: int)
    requires IsDims(b, n)
    ensures Counted(InitialMatrix(b, n), ColumnTable(b, n))
  {
    forall j | 0 <= j < 4 * n * n
      ensures Live(InitialMatrix(b, n).table, ColumnTable(b, n), j, n * n * n) == n
    {
      FullLive(InitialMatrix(b, n).table, b, n, j, n * n * n);
      ColumnHasNRows(b, n, j);
    }
  }

  /** Row bits' has, at each family, the entries of bits less delta. */
  predicate OnesDrop(bits': Bits, bits: Bits, delta: seq<int>)
    requires |bits'| == 4 && |bits| == 4 && |delta| == 4
  {
    forall k :: 0 <= k < 4 ==> Ones(bits')[k] == Ones(bits)[k] - delta[k]
  }

  /** A row that is full when it fires loses by remove exactly the entries whose counts go down. */
  lemma RowOnesRemove(bits: Bits, hits: seq<bool>)
    requires |bits| == 4 && |hits| == 4
    requires FirstHit(bits, hits, 0) < 4 ==> bits == Full()
    ensures OnesDrop(RowStep(Remove, bits, hits).bits, bits, RowStep(Remove, bits, hits).delta)
  {
    RemoveRowFirst(bits, hits);
  }

  /** The step of LiveRemove at row m - 1. */
  lemma LiveStep(t': seq<Bits>, table: seq<Bits>, lay: seq<seq<int>>, r: int, j: int, m: int)
    requires Fours(table) && Fours(t') && Fours(lay) && |table| == |lay| && |t'| == |lay| && 0 <= r < |lay| && 0 < m <= |table|
    requires Live(t', lay, j, m - 1) == Live(table, lay, j, m - 1) - Total(Remove, table, lay, r, j, m - 1)
    requires OnesDrop(t'[m - 1], table[m - 1], RowStep(Remove, table[m - 1], Hits(lay, m - 1, r)).delta)
    ensures Live(t', lay, j, m) == Live(table, lay, j, m) - Total(Remove, table, lay, r, j, m)
  {
  }

  /** When only full rows fire, remove takes from each count exactly the entries it clears. */
  lemma {:induction false} LiveRemove(table: seq<Bits>, lay: seq<seq<int>>, r: int, j: int, m: int)
    requires Fours(table) && Fours(lay) && |table| == |lay| && 0 <= r < |lay| && 0 <= m <= |table|
    requires FiringRowsFull(table, lay, r)
    ensures Live(TableAfter(Remove, table, lay, r), lay, j, m) == Live(table, lay, j, m) - Total(Remove, table, lay, r, j, m)
    decreases m
  {
    if m > 0 {
      LiveRemove(table, lay, r, j, m - 1);
      RowOnesRemove(table[m - 1], Hits(lay, m - 1, r));
      LiveStep(TableAfter(Remove, table, lay, r), table, lay, r, j, m);
    }
  }

  /** removeConstraints on a row whose firing rows are full keeps every count exact. */
  lemma CountedRemove(s: XState, lay: seq<seq<int>>, r: int)
    requires Shaped(s, lay) && 0 <= r < |lay| && FiringRowsFull(s.table, lay, r) && Counted(s, lay)
    ensures Counted(Apply(Remove, s, lay, r), lay)
  {
    forall j | 0 <= j < |s.sums|
      ensures Live(TableAfter(Remove, s.table, lay, r), lay, j, |s.table|) == s.sums[j] - Total(Remove, s.table, lay, r, j, |s.table|)
    {
      LiveRemove(s.table, lay, r, j, |s.table|);
    }
  }

  // ---------------------------------------------------------------------
  // The matrix entries and findMinCol
  // ---------------------------------------------------------------------

  /** The matrix entry of a row with these bits and columns at column j. */
  predicate EntryOf(bits: Bits, cols: seq<int>, j: int)
    requires |bits| == 4 && |cols| == 4
  {
    (cols[0] == j && bits[0]) || (cols[1] == j && bits[1]) || (cols[2] == j && bits[2]) || (cols[3] == j && bits[3])
  }

  /** The four columns of a row are distinct. */
  predicate Distinct4(cols: seq<int>)
    requires |cols| == 4
  {
    forall m, m' :: 0 <= m < 4 && 0 <= m' < 4 && cols[m] == cols[m'] ==> m == m'
  }

  /** Block k: a remove block (set false) or a reset block (set true). */
  function Step(up: bool, e: Effect, hit: bool, k: int): (e': Effect)
    requires Sized(e) && 0 <= k < 4
    ensures Sized(e')
  {
    if up then ResetIf(e, hit, k) else RemoveIf(e, hit, k)
  }

  /** After a block of row cols fires, the entries at its other three columns are set and the rest stay. */
  lemma BlockEntries(bits: Bits, cols: seq<int>, k: int, up: bool, j: int)
    requires |bits| == 4 && |cols| == 4 && Distinct4(cols) && 0 <= k < 4 && bits[k]
    ensures EntryOf(if up then Full() else Single(k), cols, j) == if j in cols && j != cols[k] then up else EntryOf(bits, cols, j)
  {
  }

  /** A fired block moves by one the counts of the row's other three columns. */
  lemma BlockCounts(cols: seq<int>, delta: seq<int>, k: int, j: int)
    requires |cols| == 4 && |delta| == 4 && Distinct4(cols) && 0 <= k < 4
    ensures Contribution(cols, Plus(delta, Others(k)), j) == Contribution(cols, delta, j) + if j in cols && j != cols[k] then 1 else 0
  {
  }

  /** Rows 0 .. i-1 from u, the rest from t. */
  function Splice(u: seq<Bits>, t: seq<Bits>, i: int): (w: seq<Bits>)
    requires |u| == |t| && 0 <= i <= |t|
    ensures |w| == |t| && forall x :: 0 <= x < |t| ==> w[x] == if x < i then u[x] else t[x]
  {
    seq(|t|, x requires 0 <= x < |t| => if x < i then u[x] else t[x])
  }

  /** The corrected reset is the `else if` chain of the four blocks: only the first block that would fire acts. */
  lemma RestoreRow(bits: Bits, hits: seq<bool>)
    requires |bits| == 4 && |hits| == 4
    ensures RowStep(Restore, bits, hits) ==
      if hits[0] && bits[0] then Effect(Full(), Plus(Zeros(), Others(0)))
      else if hits[1] && bits[1] then Effect(Full(), Plus(Zeros(), Others(1)))
      else if hits[2] && bits[2] then Effect(Full(), Plus(Zeros(), Others(2)))
      else if hits[3] && bits[3] then Effect(Full(), Plus(Zeros(), Others(3)))
      else Effect(bits, Zeros())
  {
    var k := FirstHit(bits, hits, 0);
    if k < 4 {
      assert Plus(Zeros(), Others(k)) == Others(k);
    }
    assert FirstHit(bits, hits, 3) == if hits[3] && bits[3] then 3 else 4;
    assert FirstHit(bits, hits, 2) == if hits[2] && bits[2] then 2 else FirstHit(bits, hits, 3);
  }

  /** A settled row with its entry set at an included column is full. */
  lemma PickedEntryFull(s: XState, lay: seq<seq<int>>, x: int, c: int)
    requires Shaped(s, lay) && Settled(s, lay) && 0 <= x < |lay| && 0 <= c < |s.incl| && s.incl[c]
    requires EntryOf(s.table[x], lay[x], c)
    ensures s.table[x] == Full()
  {
    var k :| 0 <= k < 4 && lay[x][k] == c && s.table[x][k];
    PickedRowFull(s, lay, x, k);
  }

  /**
   * findMinCol's loop from column i on, with best the column chosen so far:
   * an included column with count 0 ends the scan, and otherwise best moves
   * to an included column with a strictly smaller count.
   */
  function Scan(sums: seq<int>, incl: seq<bool>, i: int, best: int): (c: int)
    requires |sums| == |incl| && 0 <= i <= |sums| && -1 <= best < i
    requires best == -1 <==> forall j :: 0 <= j < i ==> !incl[j]
    requires best != -1 ==> incl[best] && forall j :: 0 <= j < i && incl[j] ==> sums[best] <= sums[j] && (j < best ==> sums[best] < sums[j])
    requires forall j :: 0 <= j < i && incl[j] ==> sums[j] != 0
    ensures c == -1 <==> forall j :: 0 <= j < |incl| ==> !incl[j]
    ensures c != -1 ==> 0 <= c < |incl| && incl[c]
    ensures (exists j :: 0 <= j < |incl| && incl[j] && sums[j] == 0) ==>
      c != -1 && sums[c] == 0 && forall j :: 0 <= j < c && incl[j] ==> sums[j] != 0
    ensures (forall j :: 0 <= j < |incl| && incl[j] ==> sums[j] != 0) && c != -1 ==>
      forall j :: 0 <= j < |incl| && incl[j] ==> sums[c] <= sums[j] && (j < c ==> sums[c] < sums[j])
    decreases |sums| - i
  {
    if i == |sums| then best
    else if incl[i] && sums[i] == 0 then i
    else if incl[i] && (best == -1 || sums[i] < sums[best]) then Scan(sums, incl, i + 1, i)
    else Scan(sums, incl, i + 1, best)
  }

  /**
   * findMinCol: -1 when every column is covered; otherwise the first
   * included column with count 0 if there is one, and else the first
   * included column of least count.
   */
  function MinCol(sums: seq<int>, incl: seq<bool>): (c: int)
    requires |sums| == |incl|
    ensures c == -1 <==> forall j :: 0 <= j < |incl| ==> !incl[j]
    ensures c != -1 ==> 0 <= c < |incl| && incl[c]
    ensures (exists j :: 0 <= j < |incl| && incl[j] && sums[j] == 0) ==>
      c != -1 && sums[c] == 0 && forall j :: 0 <= j < c && incl[j] ==> sums[j] != 0
    ensures (forall j :: 0 <= j < |incl| && incl[j] ==> sums[j] != 0) && c != -1 ==>
      forall j :: 0 <= j < |incl| && incl[j] ==> sums[c] <= sums[j] && (j < c ==> sums[c] < sums[j])
  {
    Scan(sums, incl, 0, -1)
  }
}
