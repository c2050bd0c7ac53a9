/**
 * What the two backtracking solvers compute, as functions of the grid's
 * values.
 *
 * solve scans the cells in row-major order for the first empty one and
 * returns false when there is none.  Otherwise it tries the digit positions
 * 0 .. n-1 in that cell: it writes the digit, and when the grid then
 * validates it succeeds if the grid is complete or if the recursive call on
 * the new grid succeeds.  When every digit fails it empties the cell again
 * and returns false.  The grid's own validate and checkComplete are the
 * parameters rules.valid and rules.complete.
 */
module Backtracking {
  import opened Cells
  import Layout

  datatype Option<T> = None | Some(value: T)

  /** The grid's validate and checkComplete, as predicates on its values. */
  datatype Rules = Rules(valid: Values -> bool, complete: Values -> bool)

  /** The alphabet has n entries, none of them the empty value 0. */
  predicate DigitSet(digits: seq<int>, n: int)
  {
    |digits| == n && forall p :: 0 <= p < n ==> digits[p] != 0
  }

  /** Cell i of the grid in row-major order: row i / n, column i % n. */
  function CellAt(v: Values, n: int, i: int): (x: int)
    requires IsGrid(v, n) && 0 <= i < n * n
    ensures 0 <= i / n < n && 0 <= i % n < n && x == v[i / n][i % n]
  {
    Layout.LowBound(n, i);
    v[i / n][i % n]
  }

  /** The first empty cell at or after i in row-major order, or n*n when there is none. */
  function FirstEmpty(v: Values, n: int, i: int): (j: int)
    requires IsGrid(v, n) && 0 <= i <= n * n
    ensures i <= j <= n * n
    ensures j < n * n ==> CellAt(v, n, j) == 0
    ensures forall k :: i <= k < j ==> CellAt(v, n, k) != 0
    decreases n * n - i
  {
    if i == n * n then i
    else if CellAt(v, n, i) == 0 then i
    else FirstEmpty(v, n, i + 1)
  }

  /** The outcome of solve on a grid with values v: the solved grid, or None. */
  function Search(rules: Rules, digits: seq<int>, v: Values, n: int): Option<Values>
    requires IsGrid(v, n) && DigitSet(digits, n)
    decreases EmptyCount(v, n, n), 1, 0
  {
    var i := FirstEmpty(v, n, 0);
    if i == n * n then None
    else Try(rules, digits, v, n, i / n, i % n, 0)
  }

  /** The outcome of trying digit positions p .. n-1 in the empty cell (r, c). */
  function Try(rules: Rules, digits: seq<int>, v: Values, n: int, r: int, c: int, p: int): Option<Values>
    requires IsGrid(v, n) && DigitSet(digits, n)
    requires 0 <= r < n && 0 <= c < n && v[r][c] == 0 && 0 <= p <= n
    decreases EmptyCount(v, n, n), 0, n - p
  {
    if p == n then None
    else
      var w := Place(v, r, c, digits[p]);
      EmptyCountPlace(v, n, n, r, c, digits[p]);
      if rules.valid(w) && rules.complete(w) then Some(w)
      else if rules.valid(w) && Search(rules, digits, w, n).Some? then Search(rules, digits, w, n)
      else Try(rules, digits, v, n, r, c, p + 1)
  }

  /** When cell i is the first empty one, solve tries the digits in that cell. */
  lemma SearchAt(rules: Rules, digits: seq<int>, v: Values, n: int, i: int)
    requires IsGrid(v, n) && DigitSet(digits, n) && 0 <= i < n * n
    requires CellAt(v, n, i) == 0 && forall k :: 0 <= k < i ==> CellAt(v, n, k) != 0
    ensures 0 <= i / n < n && 0 <= i % n < n && v[i / n][i % n] == 0
    ensures Search(rules, digits, v, n) == Try(rules, digits, v, n, i / n, i % n, 0)
  {
    FirstEmptyIsFirst(v, n, i);
  }

  /** When no cell is empty, solve fails. */
  lemma SearchNone(rules: Rules, digits: seq<int>, v: Values, n: int)
    requires IsGrid(v, n) && DigitSet(digits, n)
    requires forall k :: 0 <= k < n * n ==> CellAt(v, n, k) != 0
    ensures Search(rules, digits, v, n) == None
  {
    assert FirstEmpty(v, n, 0) == n * n;
  }

  /** One step of Try: position p is placed, and the outcome is decided by validate, checkComplete and the search below. */
  lemma TryStep(rules: Rules, digits: seq<int>, v: Values, n: int, r: int, c: int, p: int)
    requires IsGrid(v, n) && DigitSet(digits, n)
    requires 0 <= r < n && 0 <= c < n && v[r][c] == 0 && 0 <= p < n
    ensures IsGrid(Place(v, r, c, digits[p]), n)
    ensures EmptyCount(Place(v, r, c, digits[p]), n, n) < EmptyCount(v, n, n)
    ensures var w := Place(v, r, c, digits[p]);
      !rules.valid(w) ==> Try(rules, digits, v, n, r, c, p) == Try(rules, digits, v, n, r, c, p + 1)
    ensures var w := Place(v, r, c, digits[p]);
      rules.valid(w) && rules.complete(w) ==> Try(rules, digits, v, n, r, c, p) == Some(w)
    ensures var w := Place(v, r, c, digits[p]);
      rules.valid(w) && !rules.complete(w) ==>
        Try(rules, digits, v, n, r, c, p) == if Search(rules, digits, w, n).Some? then Search(rules, digits, w, n) else Try(rules, digits, v, n, r, c, p + 1)
  {
    EmptyCountPlace(v, n, n, r, c, digits[p]);
  }

  /** w keeps every cell of v, except that empty cells of v may hold a digit of the alphabet. */
  predicate FilledFrom(w: Values, v: Values, n: int, digits: seq<int>)
  {
    IsGrid(v, n) && IsGrid(w, n) &&
    forall r, c :: 0 <= r < n && 0 <= c < n ==> w[r][c] == v[r][c] || (v[r][c] == 0 && w[r][c] in digits)
  }

  /** Validity survives emptying cells of w: every grid w extends is valid. */
  ghost predicate ErasuresValid(rules: Rules, w: Values, n: int)
  {
    forall u :: Extends(w, u, n) ==> rules.valid(u)
  }

  /** No cell of v is empty. */
  predicate Full(v: Values, n: int)
    requires IsGrid(v, n)
  {
    forall r, c :: 0 <= r < n && 0 <= c < n ==> v[r][c] != 0
  }

  // ---------------------------------------------------------------------
  // Which cell is filled, and when nothing is
  // ---------------------------------------------------------------------

  /** The cell solve fills is the first empty one in row-major order. */
  lemma FirstEmptyIsFirst(v: Values, n: int, i: int)
    requires IsGrid(v, n) && 0 <= i < n * n
    requires CellAt(v, n, i) == 0 && forall k :: 0 <= k < i ==> CellAt(v, n, k) != 0
    ensures FirstEmpty(v, n, 0) == i
  {
  }

  /** A grid without empty cells is never solved, even when it is valid and complete. */
  lemma FullNotSolved(rules: Rules, digits: seq<int>, v: Values, n: int)
    requires IsGrid(v, n) && DigitSet(digits, n) && Full(v, n)
    ensures Search(rules, digits, v, n) == None
  {
    FullFirstEmpty(v, n, 0);
  }

  /** In a full grid the scan from any i finds no empty cell. */
  lemma {:induction false} FullFirstEmpty(v: Values, n: int, i: int)
    requires IsGrid(v, n) && Full(v, n) && 0 <= i <= n * n
    ensures FirstEmpty(v, n, i) == n * n
    decreases n * n - i
  {
    if i < n * n {
      var x := CellAt(v, n, i);
      assert x == v[i / n][i % n];
      FullFirstEmpty(v, n, i + 1);
    }
  }

  // ---------------------------------------------------------------------
  // Soundness: a solved grid validates, is complete and fills v
  // ---------------------------------------------------------------------

  /** Filling a further cell of a grid that fills v still fills v. */
  lemma FilledFromPlace(x: Values, v: Values, n: int, digits: seq<int>, r: int, c: int, p: int)
    requires IsGrid(v, n) && DigitSet(digits, n) && 0 <= r < n && 0 <= c < n && v[r][c] == 0 && 0 <= p < n
    requires FilledFrom(x, Place(v, r, c, digits[p]), n, digits)
    ensures FilledFrom(x, v, n, digits)
  {
    var u := Place(v, r, c, digits[p]);
    forall r', c' | 0 <= r' < n && 0 <= c' < n
      ensures x[r'][c'] == v[r'][c'] || (v[r'][c'] == 0 && x[r'][c'] in digits)
    {
      if (r', c') == (r, c) {
        assert x[r][c] == digits[p];
      } else {
        assert u[r'][c'] == v[r'][c'];
      }
    }
  }

  /** A grid solve returns satisfies validate and checkComplete and fills v. */
  lemma {:induction false} SearchSound(rules: Rules, digits: seq<int>, v: Values, n: int)
    requires IsGrid(v, n) && DigitSet(digits, n)
    requires Search(rules, digits, v, n).Some?
    ensures var x := Search(rules, digits, v, n).value;
      rules.valid(x) && rules.complete(x) && FilledFrom(x, v, n, digits)
    decreases EmptyCount(v, n, n), 1, 0
  {
    var i := FirstEmpty(v, n, 0);
    TrySound(rules, digits, v, n, i / n, i % n, 0);
  }

  lemma {:induction false} TrySound(rules: Rules, digits: seq<int>, v: Values, n: int, r: int, c: int, p: int)
    requires IsGrid(v, n) && DigitSet(digits, n)
    requires 0 <= r < n && 0 <= c < n && v[r][c] == 0 && 0 <= p <= n
    requires Try(rules, digits, v, n, r, c, p).Some?
    ensures var x := Try(rules, digits, v, n, r, c, p).value;
      rules.valid(x) && rules.complete(x) && FilledFrom(x, v, n, digits)
    decreases EmptyCount(v, n, n), 0, n - p
  {
    var w := Place(v, r, c, digits[p]);
    EmptyCountPlace(v, n, n, r, c, digits[p]);
    if rules.valid(w) && rules.complete(w) {
      FilledFromPlace(w, v, n, digits, r, c, p);
    } else if rules.valid(w) && Search(rules, digits, w, n).Some? {
      SearchSound(rules, digits, w, n);
      FilledFromPlace(Search(rules, digits, w, n).value, v, n, digits, r, c, p);
    } else {
      TrySound(rules, digits, v, n, r, c, p + 1);
    }
  }

  // ---------------------------------------------------------------------
  // Completeness: when validity survives emptying cells, a full valid and
  // complete grid that fills v means solve succeeds
  // ---------------------------------------------------------------------

  /** Trying from p on succeeds when trying from a later q on does. */
  lemma {:induction false} TryFrom(rules: Rules, digits: seq<int>, v: Values, n: int, r: int, c: int, p: int, q: int)
    requires IsGrid(v, n) && DigitSet(digits, n)
    requires 0 <= r < n && 0 <= c < n && v[r][c] == 0 && 0 <= p <= q <= n
    requires Try(rules, digits, v, n, r, c, q).Some?
    ensures Try(rules, digits, v, n, r, c, p).Some?
    decreases q - p
  {
    if p < q {
      TryFrom(rules, digits, v, n, r, c, p + 1, q);
    }
  }

  /** The grid with one more cell of the solution w filled in. */
  lemma StepTowards(w: Values, v: Values, n: int, digits: seq<int>, r: int, c: int, p: int)
    requires IsGrid(v, n) && DigitSet(digits, n) && 0 <= r < n && 0 <= c < n && v[r][c] == 0 && 0 <= p < n
    requires FilledFrom(w, v, n, digits) && w[r][c] == digits[p]
    ensures Extends(w, Place(v, r, c, digits[p]), n)
    ensures FilledFrom(w, Place(v, r, c, digits[p]), n, digits)
  {
    var u := Place(v, r, c, digits[p]);
    forall r', c' | 0 <= r' < n && 0 <= c' < n
      ensures (u[r'][c'] != 0 ==> w[r'][c'] == u[r'][c']) && (w[r'][c'] == u[r'][c'] || (u[r'][c'] == 0 && w[r'][c'] in digits))
    {
      if (r', c') != (r, c) {
        assert u[r'][c'] == v[r'][c'];
      }
    }
  }

  /** A grid that has no empty cell in row-major order is full. */
  lemma NoFirstEmpty(v: Values, n: int)
    requires IsGrid(v, n) && FirstEmpty(v, n, 0) == n * n
    ensures Full(v, n)
  {
    forall r, c | 0 <= r < n && 0 <= c < n
      ensures v[r][c] != 0
    {
      Layout.LowPart(n, r, c);
      Layout.SplitLow(n, r, c);
      assert CellAt(v, n, r * n + c) != 0;
    }
  }

  /** A full grid that w fills is w itself. */
  lemma FullFilledFrom(w: Values, v: Values, n: int, digits: seq<int>)
    requires FilledFrom(w, v, n, digits) && Full(v, n)
    ensures w == v
  {
    SameGrid(w, v, n);
  }

  /**
   * If w is a full grid that fills v and satisfies validate and
   * checkComplete, validity survives emptying cells of w and v has an
   * empty cell, solve succeeds on v.
   */
  lemma {:induction false} SearchComplete(rules: Rules, digits: seq<int>, v: Values, n: int, w: Values)
    requires IsGrid(v, n) && DigitSet(digits, n) && ErasuresValid(rules, w, n) && !Full(v, n)
    requires FilledFrom(w, v, n, digits) && Full(w, n) && rules.valid(w) && rules.complete(w)
    ensures Search(rules, digits, v, n).Some?
    decreases EmptyCount(v, n, n)
  {
    var i := FirstEmpty(v, n, 0);
    if i == n * n {
      NoFirstEmpty(v, n);
      assert false;
    }
    var r, c := i / n, i % n;
    var p :| 0 <= p < n && digits[p] == w[r][c];
    var u := Place(v, r, c, digits[p]);
    StepTowards(w, v, n, digits, r, c, p);
    assert rules.valid(u);
    EmptyCountPlace(v, n, n, r, c, digits[p]);
    if !rules.complete(u) {
      if Full(u, n) {
        FullFilledFrom(w, u, n, digits);
        assert false;
      }
      SearchComplete(rules, digits, u, n, w);
    }
    assert Try(rules, digits, v, n, r, c, p).Some?;
    TryFrom(rules, digits, v, n, r, c, 0, p);
  }
}
