/**
 * What the Algorithm X solver computes, as functions of the matrix state
 * and the grid's values: init's removals for the givens, and
 * performCalcs's recursive search.
 *
 * performCalcs picks the column findMinCol chooses; it succeeds when no
 * column is left, fails when that column has count 0, and otherwise tries
 * the matrix rows with an entry in it in increasing order.  A try removes
 * the row's constraints, writes its digit into its cell and recurses; when
 * the recursion fails it empties the cell again and runs
 * resetConstraintsByRow as written.  That reset gives back every matrix
 * entry and every colInclusion flag but counts some columns up more than
 * the removal counted them down (AlgorXModel.ResetOverCounts), so a failed
 * try leaves the same entries and flags and possibly larger colSums, and
 * later findMinCol calls see those counts.
 */
module AlgorXSearch {
  import opened Layout
  import opened Cells
  import opened AlgorXModel
  import Alpha = Alphabet

  /** performCalcs's answer, the matrix state it leaves and the grid it leaves. */
  datatype Outcome = Outcome(solved: bool, s: XState, v: Values)

  /** The search can run on s: the row table is laid out for an order-n grid and every row is settled. */
  predicate Searchable(s: XState, lay: seq<seq<int>>, n: int)
  {
    Shaped(s, lay) && Settled(s, lay) && n > 0 && |lay| == n * n * n
  }

  /** s' has the matrix entries and the colInclusion flags of s; only the counts may differ. */
  predicate Twin(s': XState, s: XState)
  {
    s'.table == s.table && s'.incl == s.incl && |s'.sums| == |s.sums|
  }

  /** performCalcs on state s and grid v. */
  function XSearch(s: XState, lay: seq<seq<int>>, v: Values, digits: seq<int>, n: int): (o: Outcome)
    requires Searchable(s, lay, n) && IsGrid(v, n) && |digits| == n
    ensures IsGrid(o.v, n) && (!o.solved ==> Twin(o.s, s))
    decreases Active(s.incl, |s.incl|), 1, 0, 0
  {
    var c := MinCol(s.sums, s.incl);
    if c == -1 then Outcome(true, s, v)
    else if s.sums[c] == 0 then Outcome(false, s, v)
    else XTry(s, lay, v, digits, n, c, 0)
  }

  /** performCalcs's loop over the matrix rows x, x+1, ... for column c. */
  function XTry(s: XState, lay: seq<seq<int>>, v: Values, digits: seq<int>, n: int, c: int, x: int): (o: Outcome)
    requires Searchable(s, lay, n) && IsGrid(v, n) && |digits| == n
    requires 0 <= c < |s.incl| && s.incl[c] && 0 <= x <= |lay|
    ensures IsGrid(o.v, n) && (!o.solved ==> Twin(o.s, s))
    decreases Active(s.incl, |s.incl|), 0, |lay| - x, 1
  {
    if x == |lay| then Outcome(false, s, v)
    else if !EntryOf(s.table[x], lay[x], c) then XTry(s, lay, v, digits, n, c, x + 1)
    else XPick(s, lay, v, digits, n, c, x)
  }

  /** A row without an entry in column c is skipped. */
  lemma XTrySkip(s: XState, lay: seq<seq<int>>, v: Values, digits: seq<int>, n: int, c: int, x: int)
    requires Searchable(s, lay, n) && IsGrid(v, n) && |digits| == n
    requires 0 <= c < |s.incl| && s.incl[c] && 0 <= x < |lay| && !EntryOf(s.table[x], lay[x], c)
    ensures XTry(s, lay, v, digits, n, c, x) == XTry(s, lay, v, digits, n, c, x + 1)
  {
  }

  /**
   * One try of performCalcs: remove row x, write its digit and recurse; on
   * failure erase it, reset row x and go on with x+1 from the state the
   * reset leaves.
   */
  function XPick(s: XState, lay: seq<seq<int>>, v: Values, digits: seq<int>, n: int, c: int, x: int): (o: Outcome)
    requires Searchable(s, lay, n) && IsGrid(v, n) && |digits| == n
    requires 0 <= c < |s.incl| && s.incl[c] && 0 <= x < |lay| && EntryOf(s.table[x], lay[x], c)
    ensures IsGrid(o.v, n) && (!o.solved ==> Twin(o.s, s))
    decreases Active(s.incl, |s.incl|), 0, |lay| - x, 0
  {
    PickedEntryFull(s, lay, x, c);
    FullRowIncluded(s, lay, x);
    ActiveRemove(s, lay, x);
    SettledRemove(s, lay, x);
    var o := XSearch(Apply(Remove, s, lay, x), lay, Write(v, digits, n, x), digits, n);
    if o.solved then o
    else
      ResetAfterRemove(s, o.s, lay, x);
      XTry(Apply(Reset, o.s, lay, x), lay, Erase(o.v, n, x), digits, n, c, x + 1)
  }

  /**
   * resetConstraintsByRow(x) on any state with the entries and flags that
   * removeConstraints(x) left gives back the entries and flags of s.
   */
  lemma ResetAfterRemove(s: XState, s1: XState, lay: seq<seq<int>>, x: int)
    requires Shaped(s, lay) && Settled(s, lay) && 0 <= x < |lay| && s.table[x] == Full()
    requires Twin(s1, Apply(Remove, s, lay, x))
    ensures Shaped(s1, lay) && Twin(Apply(Reset, s1, lay, x), s) && Settled(Apply(Reset, s1, lay, x), lay)
  {
    FullRowReady(s, lay, x);
    Undo(s, lay, x);
    var s0 := Apply(Remove, s, lay, x);
    assert Apply(Reset, s1, lay, x).table == Apply(Reset, s0, lay, x).table;
    assert Apply(Reset, s1, lay, x).incl == Apply(Reset, s0, lay, x).incl;
  }

  /** init from cell (row, col) on, in row-major order: every filled cell removes the row of its digit. */
  function InitFrom(s: XState, lay: seq<seq<int>>, v: Values, digits: seq<int>, n: int, row: int, col: int): (s': XState)
    requires Shaped(s, lay) && n > 0 && |lay| == n * n * n && IsGrid(v, n) && |digits| == n && Givens(v, digits, n)
    requires 0 <= row <= n && 0 <= col <= n
    ensures Shaped(s', lay)
    decreases n - row, n - col
  {
    if row == n then s
    else if col == n then InitFrom(s, lay, v, digits, n, row + 1, 0)
    else if v[row][col] == 0 then InitFrom(s, lay, v, digits, n, row, col + 1)
    else
      var p := Alpha.DigitPosition(digits, v[row][col]);
      DecodeRowId(n, row, col, p);
      InitFrom(Apply(Remove, s, lay, RowId(n, row, col, p)), lay, v, digits, n, row, col + 1)
  }

  /** init keeps every row full or down to one covered entry. */
  lemma {:induction false} InitSettled(s: XState, lay: seq<seq<int>>, v: Values, digits: seq<int>, n: int, row: int, col: int)
    requires Shaped(s, lay) && n > 0 && |lay| == n * n * n && IsGrid(v, n) && |digits| == n && Givens(v, digits, n)
    requires 0 <= row <= n && 0 <= col <= n && Settled(s, lay)
    ensures Settled(InitFrom(s, lay, v, digits, n, row, col), lay)
    decreases n - row, n - col
  {
    if row == n {
    } else if col == n {
      InitSettled(s, lay, v, digits, n, row + 1, 0);
    } else if v[row][col] == 0 {
      InitSettled(s, lay, v, digits, n, row, col + 1);
    } else {
      var p := Alpha.DigitPosition(digits, v[row][col]);
      DecodeRowId(n, row, col, p);
      var x := RowId(n, row, col, p);
      var s' := Apply(Remove, s, lay, x);
      assert InitFrom(s, lay, v, digits, n, row, col) == InitFrom(s', lay, v, digits, n, row, col + 1);
      SettledRemove(s, lay, x);
      InitSettled(s', lay, v, digits, n, row, col + 1);
    }
  }

  /** solve on a grid with values v: the constructor's matrix, init's removals for the givens, then performCalcs. */
  function SolveOutcome(v: Values, digits: seq<int>, b: int, n: int): Outcome
    requires IsDims(b, n) && IsGrid(v, n) && |digits| == n && Givens(v, digits, n)
  {
    var lay := ColumnTable(b, n);
    InitialSettled(b, n);
    InitSettled(InitialMatrix(b, n), lay, v, digits, n, 0, 0);
    XSearch(InitFrom(InitialMatrix(b, n), lay, v, digits, n, 0, 0), lay, v, digits, n)
  }
}
