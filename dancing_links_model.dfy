/**
 * DancingLinksSolver's matrix on values.  A state is the node arena (links
 * and column counts) with every column header's isActive flag.  The column
 * walks of removeConstraintsByCol and resetConstraintsByCol, the by-row
 * operations, the givens pass of initMatrix and the recursion of
 * performCalcs are functions of the state; the class in DancingLinks is
 * proved to compute them.
 */
module DancingLinksModel {
  import opened Layout
  import opened Cells
  import opened Rings
  import opened LinkedMatrix
  import Alpha = Alphabet

  /** The matrix: links and counts, and each column header's isActive flag. */
  datatype DLState = DLState(links: Links, active: seq<bool>)

  /** s is a well-formed arena over the node columns cols with w headers. */
  predicate Fit(s: DLState, cols: seq<int>, w: int)
  {
    Ordered(s.links, cols, w) && RowsApart(cols) && |s.active| == w
  }

  /**
   * removeConstraintsByCol's walk from node q down its column: every row
   * met detaches its other three nodes, each taking one off its column's
   * count; the walk ends at the header.
   */
  function CoverFrom(L: Links, cols: seq<int>, w: int, q: int): (L': Links)
    requires Ordered(L, cols, w) && RowsApart(cols) && 0 <= q < w + |cols|
    ensures Ordered(L', cols, w)
    decreases q
  {
    if q < w then L
    else
      SpanMisses(cols, w, q);
      var p := Right(w, q);
      var L1 := DropSpan(L, cols, w, p, 3);
      SpanElsewhere(L, cols, w, p, 3, cols[q - w]);
      assert Hooked(L, cols, w, q);
      CoverFrom(L1, cols, w, L1.below[q])
  }

  /** resetConstraintsByCol's walk from node q down: every row met reattaches its other three nodes, each adding one to its column's count. */
  function UncoverFrom(L: Links, cols: seq<int>, w: int, q: int): (L': Links)
    requires Ordered(L, cols, w) && RowsApart(cols) && 0 <= q < w + |cols|
    ensures Ordered(L', cols, w)
    decreases q
  {
    if q < w then L
    else
      SpanMisses(cols, w, q);
      var p := Right(w, q);
      var L1 := LiftSpan(L, cols, w, p, 3);
      SpanElsewhere(L, cols, w, p, 3, cols[q - w]);
      assert Hooked(L, cols, w, q);
      UncoverFrom(L1, cols, w, L1.below[q])
  }

  /** The walk from q leaves the other nodes of q's column alone and takes from each count one per node its rows hold there. */
  lemma {:induction false} CoverFromKeeps(L: Links, cols: seq<int>, w: int, q: int)
    requires Ordered(L, cols, w) && RowsApart(cols) && 0 <= q < w + |cols|
    ensures SameColumn(L, CoverFrom(L, cols, w, q), cols, w, ColOf(cols, w, q))
    ensures forall j :: 0 <= j < w ==> CoverFrom(L, cols, w, q).sums[j] == L.sums[j] - Others(cols, w, WalkFrom(L, cols, w, q), j)
    decreases q
  {
    if q >= w {
      SpanMisses(cols, w, q);
      var p := Right(w, q);
      var L1 := DropSpan(L, cols, w, p, 3);
      SpanElsewhere(L, cols, w, p, 3, cols[q - w]);
      DropSpanSums(L, cols, w, p);
      assert Hooked(L, cols, w, q);
      var q1 := L1.below[q];
      WalkSame(L, L1, cols, w, q1);
      CoverFromKeeps(L1, cols, w, q1);
    }
  }

  /** The reset walk from q leaves the other nodes of q's column alone and adds to each count one per node its rows hold there. */
  lemma {:induction false} UncoverFromKeeps(L: Links, cols: seq<int>, w: int, q: int)
    requires Ordered(L, cols, w) && RowsApart(cols) && 0 <= q < w + |cols|
    ensures SameColumn(L, UncoverFrom(L, cols, w, q), cols, w, ColOf(cols, w, q))
    ensures forall j :: 0 <= j < w ==> UncoverFrom(L, cols, w, q).sums[j] == L.sums[j] + Others(cols, w, WalkFrom(L, cols, w, q), j)
    decreases q
  {
    if q >= w {
      SpanMisses(cols, w, q);
      var p := Right(w, q);
      var L1 := LiftSpan(L, cols, w, p, 3);
      SpanElsewhere(L, cols, w, p, 3, cols[q - w]);
      LiftSpanSums(L, cols, w, p);
      assert Hooked(L, cols, w, q);
      var q1 := L1.below[q];
      WalkSame(L, L1, cols, w, q1);
      UncoverFromKeeps(L1, cols, w, q1);
    }
  }

  /** removeConstraintsByCol(h): the walk from the header's first node. */
  function Cover(L: Links, cols: seq<int>, w: int, h: int): (L': Links)
    requires Ordered(L, cols, w) && RowsApart(cols) && 0 <= h < w
    ensures Ordered(L', cols, w)
  {
    assert Hooked(L, cols, w, h);
    CoverFrom(L, cols, w, L.below[h])
  }

  /** resetConstraintsByCol(h): the walk from the header's first node. */
  function Uncover(L: Links, cols: seq<int>, w: int, h: int): (L': Links)
    requires Ordered(L, cols, w) && RowsApart(cols) && 0 <= h < w
    ensures Ordered(L', cols, w)
  {
    assert Hooked(L, cols, w, h);
    UncoverFrom(L, cols, w, L.below[h])
  }

  /**
   * Resetting a column straight after removing it walks the same rows, so
   * every count comes back and the column's own links are untouched.
   */
  lemma CoverUncover(L: Links, cols: seq<int>, w: int, h: int)
    requires Ordered(L, cols, w) && RowsApart(cols) && 0 <= h < w
    ensures Uncover(Cover(L, cols, w, h), cols, w, h).sums == L.sums
    ensures SameColumn(L, Uncover(Cover(L, cols, w, h), cols, w, h), cols, w, h)
  {
    assert Hooked(L, cols, w, h);
    var q := L.below[h];
    var L1 := CoverFrom(L, cols, w, q);
    CoverFromKeeps(L, cols, w, q);
    assert L1.below[h] == q;
    WalkSame(L, L1, cols, w, q);
    var L2 := UncoverFrom(L1, cols, w, q);
    UncoverFromKeeps(L1, cols, w, q);
    assert forall j :: 0 <= j < w ==> L2.sums[j] == L.sums[j];
  }

  /**
   * On the matrix initMatrix builds, removing column h walks exactly the
   * rows covering h, from the last one down.
   */
  lemma InitialCover(b: int, n: int, h: int)
    requires IsDims(b, n) && 0 <= h < 4 * n * n
    ensures var L := Built(Cols(b, n), 4 * n * n, n, |Cols(b, n)|);
      0 <= L.below[h] < 4 * n * n + |Cols(b, n)| &&
      RowsOf(4 * n * n, WalkFrom(L, Cols(b, n), 4 * n * n, L.below[h])) == CoveringRows(b, n, h, n * n * n)
  {
    InitialWalk(Cols(b, n), 4 * n * n, n, h);
    ColumnHoldsN(b, n, h);
  }

  /** The first k of removeConstraintsByRow(x)'s four removeConstraintsByCol calls, in family order. */
  function CoverRow(L: Links, cols: seq<int>, w: int, x: int, k: int): (L': Links)
    requires Ordered(L, cols, w) && RowsApart(cols) && 0 <= x < |cols| / 4 && 0 <= k <= 4
    ensures Ordered(L', cols, w)
    decreases k, x
  {
    if k == 0 then L
    else
      assert 4 * x + 4 <= |cols|;
      Cover(CoverRow(L, cols, w, x, k - 1), cols, w, cols[4 * x + k - 1])
  }

  /** The first k of resetConstraintsByRow(x)'s four resetConstraintsByCol calls, in family order. */
  function UncoverRow(L: Links, cols: seq<int>, w: int, x: int, k: int): (L': Links)
    requires Ordered(L, cols, w) && RowsApart(cols) && 0 <= x < |cols| / 4 && 0 <= k <= 4
    ensures Ordered(L', cols, w)
    decreases k, x
  {
    if k == 0 then L
    else
      assert 4 * x + 4 <= |cols|;
      Uncover(UncoverRow(L, cols, w, x, k - 1), cols, w, cols[4 * x + k - 1])
  }

  /**
   * removeConstraintsByRow(x): clear the flags of x's four columns, then
   * remove those columns in family order.
   */
  function RemoveRow(s: DLState, cols: seq<int>, w: int, x: int): (s': DLState)
    requires Fit(s, cols, w) && 0 <= x < |cols| / 4
    ensures Fit(s', cols, w)
    ensures forall j :: 0 <= j < w ==> s'.active[j] == (s.active[j] && !RowHas(cols, j, x))
  {
    DLState(CoverRow(s.links, cols, w, x, 4), s.active[cols[4 * x] := false][cols[4 * x + 1] := false][cols[4 * x + 2] := false][cols[4 * x + 3] := false])
  }

  /** resetConstraintsByRow(x): set the flags of x's four columns, then reset those columns in family order. */
  function ResetRow(s: DLState, cols: seq<int>, w: int, x: int): (s': DLState)
    requires Fit(s, cols, w) && 0 <= x < |cols| / 4
    ensures Fit(s', cols, w)
    ensures forall j :: 0 <= j < w ==> s'.active[j] == (s.active[j] || RowHas(cols, j, x))
  {
    DLState(UncoverRow(s.links, cols, w, x, 4), s.active[cols[4 * x] := true][cols[4 * x + 1] := true][cols[4 * x + 2] := true][cols[4 * x + 3] := true])
  }

  /** The state initMatrix's row loop leaves: every node added, every count n, every column active. */
  function Initial(b: int, n: int): (s: DLState)
    requires IsDims(b, n)
    ensures Fit(s, Cols(b, n), 4 * n * n) && forall j :: 0 <= j < 4 * n * n ==> s.active[j]
  {
    ColsApart(b, n);
    DLState(Built(Cols(b, n), 4 * n * n, n, |Cols(b, n)|), seq(4 * n * n, j => true))
  }

  /** The state is a matrix of an order-n grid. */
  predicate Grid(s: DLState, b: int, n: int)
  {
    IsDims(b, n) && Fit(s, Cols(b, n), 4 * n * n)
  }

  /** The answer of performCalcs, the matrix it leaves and the grid it leaves. */
  datatype DLOutcome = DLOutcome(solved: bool, s: DLState, v: Values)

  /**
   * performCalcs with at most fuel nested calls left: true when no column
   * is active; false when the chosen column's count is 0; otherwise the
   * rows of the chosen column, walked down from its header.  Its outcome
   * keeps the promises Kept states.
   */
  function DLSearch(s: DLState, b: int, n: int, v: Values, digits: seq<int>, fuel: nat): (o: DLOutcome)
    requires Grid(s, b, n) && IsGrid(v, n) && |digits| == n
    ensures Grid(o.s, b, n) && IsGrid(o.v, n) && Kept(s, v, o, digits, n)
    decreases fuel, 1, 0, 0
  {
    var c := MinActive(s.links.sums, s.active);
    if fuel == 0 then DLOutcome(false, s, v)
    else if c == -1 then DLOutcome(true, s, v)
    else if s.links.sums[c] == 0 then DLOutcome(false, s, v)
    else
      assert Hooked(s.links, Cols(b, n), 4 * n * n, c);
      DLTry(s, b, n, v, digits, fuel, s.links.below[c])
  }

  /**
   * performCalcs's loop from node q on down: write q's row's digit, remove
   * the row and recurse, then go on as DLNext says.
   */
  function DLTry(s: DLState, b: int, n: int, v: Values, digits: seq<int>, fuel: nat, q: int): (o: DLOutcome)
    requires Grid(s, b, n) && IsGrid(v, n) && |digits| == n && fuel >= 1
    requires 0 <= q < 4 * n * n + |Cols(b, n)|
    ensures Grid(o.s, b, n) && IsGrid(o.v, n) && Kept(s, v, o, digits, n)
    decreases fuel, 0, q, 1
  {
    var cols, w := Cols(b, n), 4 * n * n;
    if q < w then DLOutcome(false, s, v)
    else
      var x := RowOf(w, q);
      var o1 := DLSearch(RemoveRow(s, cols, w, x), b, n, Write(v, digits, n, x), digits, fuel - 1);
      var o2 := DLNext(b, n, digits, fuel, q, o1);
      StepKept(s, b, n, v, digits, x, o1, o2);
      o2
  }

  /**
   * After the recursive call from node q returned o: stop on success; on
   * failure reset q's row, empty its cell and go on with the node below q
   * as the reset left it.
   */
  function DLNext(b: int, n: int, digits: seq<int>, fuel: nat, q: int, o: DLOutcome): (o': DLOutcome)
    requires Grid(o.s, b, n) && IsGrid(o.v, n) && |digits| == n && fuel >= 1
    requires 4 * n * n <= q < 4 * n * n + |Cols(b, n)|
    ensures Grid(o'.s, b, n) && IsGrid(o'.v, n)
    ensures o.solved ==> o' == o
    ensures !o.solved ==> var x := RowOf(4 * n * n, q);
      0 <= x < n * n * n && x < |Cols(b, n)| / 4 &&
      Kept(ResetRow(o.s, Cols(b, n), 4 * n * n, x), Erase(o.v, n, x), o', digits, n)
    decreases fuel, 0, q, 0
  {
    var cols, w := Cols(b, n), 4 * n * n;
    if o.solved then o
    else
      var x := RowOf(w, q);
      var s2 := ResetRow(o.s, cols, w, x);
      assert Hooked(s2.links, cols, w, q);
      DLTry(s2, b, n, Erase(o.v, n, x), digits, fuel, s2.links.below[q])
  }

  /**
   * What a search from state s and grid v promises of its outcome o: on
   * success no column is active; on failure every column active before is
   * active again and every cell holds its old value or is empty; cells stay
   * within the alphabet; and a filled cell backs every inactive cell column.
   */
  predicate Kept(s: DLState, v: Values, o: DLOutcome, digits: seq<int>, n: int)
    requires IsGrid(v, n) && IsGrid(o.v, n) && |s.active| == |o.s.active|
  {
    (o.solved ==> forall j :: 0 <= j < |o.s.active| ==> !o.s.active[j]) &&
    (!o.solved ==> forall j :: 0 <= j < |s.active| && s.active[j] ==> o.s.active[j]) &&
    (!o.solved ==> forall r, c :: 0 <= r < n && 0 <= c < n ==> o.v[r][c] == v[r][c] || o.v[r][c] == 0) &&
    (Givens(v, digits, n) ==> Givens(o.v, digits, n)) &&
    (Digits(digits, n) && Marked(s.active, v, n) ==> Marked(o.s.active, o.v, n))
  }

  /** Removing row x after writing its digit keeps a filled cell behind every inactive cell column, and cells within the alphabet. */
  lemma RemoveMarked(s: DLState, b: int, n: int, v: Values, digits: seq<int>, x: int)
    requires Grid(s, b, n) && IsGrid(v, n) && |digits| == n && 0 <= x < n * n * n
    ensures 0 <= x < |Cols(b, n)| / 4
    ensures Givens(v, digits, n) ==> Givens(Write(v, digits, n, x), digits, n)
    ensures Digits(digits, n) && Marked(s.active, v, n) ==> Marked(RemoveRow(s, Cols(b, n), 4 * n * n, x).active, Write(v, digits, n, x), n)
  {
    var s1, v1 := RemoveRow(s, Cols(b, n), 4 * n * n, x), Write(v, digits, n, x);
    DecodeBounds(n, x);
    var r0, c0 := GridRow(n, x), GridCol(n, x);
    if Digits(digits, n) && Marked(s.active, v, n) {
      forall r, c | 0 <= r < n && 0 <= c < n && 0 <= r * n + c < |s1.active| && !s1.active[r * n + c]
        ensures v1[r][c] != 0
      {
        CellColumnOfRow(b, n, x, r, c);
        if (r, c) == (r0, c0) {
          assert v1[r][c] == digits[GridDigit(n, x)];
        } else {
          assert !s.active[r * n + c] && v1[r][c] == v[r][c];
        }
      }
    }
  }

  /** Resetting row x and emptying its cell keeps a filled cell behind every inactive cell column, and cells within the alphabet. */
  lemma ResetMarked(s: DLState, b: int, n: int, v: Values, digits: seq<int>, x: int)
    requires Grid(s, b, n) && IsGrid(v, n) && |digits| == n && 0 <= x < n * n * n
    ensures 0 <= x < |Cols(b, n)| / 4
    ensures Givens(v, digits, n) ==> Givens(Erase(v, n, x), digits, n)
    ensures Marked(s.active, v, n) ==> Marked(ResetRow(s, Cols(b, n), 4 * n * n, x).active, Erase(v, n, x), n)
  {
    var s2, v2 := ResetRow(s, Cols(b, n), 4 * n * n, x), Erase(v, n, x);
    DecodeBounds(n, x);
    var r0, c0 := GridRow(n, x), GridCol(n, x);
    if Marked(s.active, v, n) {
      forall r, c | 0 <= r < n && 0 <= c < n && 0 <= r * n + c < |s2.active| && !s2.active[r * n + c]
        ensures v2[r][c] != 0
      {
        CellColumnOfRow(b, n, x, r, c);
        assert !s.active[r * n + c] && v2[r][c] == v[r][c];
      }
    }
  }

  /** One try of the loop, remove row x and search to o, then go on to o2 as DLNext does, keeps the promises made before the try. */
  lemma StepKept(s: DLState, b: int, n: int, v: Values, digits: seq<int>, x: int, o: DLOutcome, o2: DLOutcome)
    requires Grid(s, b, n) && IsGrid(v, n) && |digits| == n && 0 <= x < n * n * n && x < |Cols(b, n)| / 4
    requires Grid(o.s, b, n) && IsGrid(o.v, n) && Grid(o2.s, b, n) && IsGrid(o2.v, n)
    requires Kept(RemoveRow(s, Cols(b, n), 4 * n * n, x), Write(v, digits, n, x), o, digits, n)
    requires o.solved ==> o2 == o
    requires !o.solved ==> Kept(ResetRow(o.s, Cols(b, n), 4 * n * n, x), Erase(o.v, n, x), o2, digits, n)
    ensures Kept(s, v, o2, digits, n)
  {
    if o.solved {
      SuccessKept(s, b, n, v, digits, x, o);
    } else {
      FailKept(s, b, n, v, digits, x, o, o2);
    }
  }

  /** Kept carries over a try that succeeds: remove row x and write its digit, then search to o. */
  lemma SuccessKept(s: DLState, b: int, n: int, v: Values, digits: seq<int>, x: int, o: DLOutcome)
    requires Grid(s, b, n) && IsGrid(v, n) && |digits| == n && 0 <= x < n * n * n && x < |Cols(b, n)| / 4
    requires Grid(o.s, b, n) && IsGrid(o.v, n)
    requires o.solved && Kept(RemoveRow(s, Cols(b, n), 4 * n * n, x), Write(v, digits, n, x), o, digits, n)
    ensures Kept(s, v, o, digits, n)
  {
    RemoveMarked(s, b, n, v, digits, x);
    KeptSolved(s, RemoveRow(s, Cols(b, n), 4 * n * n, x), v, Write(v, digits, n, x), o, digits, n);
  }

  /** Kept chains over a failed try: remove row x and write its digit, search to o, reset and erase, go on to o2. */
  lemma FailKept(s: DLState, b: int, n: int, v: Values, digits: seq<int>, x: int, o: DLOutcome, o2: DLOutcome)
    requires Grid(s, b, n) && IsGrid(v, n) && |digits| == n && 0 <= x < n * n * n && x < |Cols(b, n)| / 4
    requires Grid(o.s, b, n) && IsGrid(o.v, n) && IsGrid(o2.v, n) && |o2.s.active| == 4 * n * n
    requires !o.solved && Kept(RemoveRow(s, Cols(b, n), 4 * n * n, x), Write(v, digits, n, x), o, digits, n)
    requires Kept(ResetRow(o.s, Cols(b, n), 4 * n * n, x), Erase(o.v, n, x), o2, digits, n)
    ensures Kept(s, v, o2, digits, n)
  {
    var cols, w := Cols(b, n), 4 * n * n;
    RemoveMarked(s, b, n, v, digits, x);
    ResetMarked(o.s, b, n, o.v, digits, x);
    DecodeBounds(n, x);
    KeptChain(s, RemoveRow(s, cols, w, x), ResetRow(o.s, cols, w, x), v, Write(v, digits, n, x), Erase(o.v, n, x), o, o2,
              digits, n, cols, x, GridRow(n, x), GridCol(n, x));
  }

  /** A failed try followed by the rest of the loop keeps the promises made for the state and grid before the try. */
  lemma KeptChain(s: DLState, s1: DLState, s2: DLState, v: Values, v1: Values, v2: Values, o: DLOutcome, o2: DLOutcome,
                  digits: seq<int>, n: int, cols: seq<int>, x: int, r0: int, c0: int)
    requires IsGrid(v, n) && IsGrid(v1, n) && IsGrid(v2, n) && IsGrid(o.v, n) && IsGrid(o2.v, n)
    requires 0 <= x && 4 * x + 4 <= |cols|
    requires |s.active| == |s1.active| == |o.s.active| == |s2.active| == |o2.s.active|
    requires forall j :: 0 <= j < |s.active| ==> s1.active[j] == (s.active[j] && !RowHas(cols, j, x))
    requires forall j :: 0 <= j < |s.active| ==> s2.active[j] == (o.s.active[j] || RowHas(cols, j, x))
    requires forall r, c :: 0 <= r < n && 0 <= c < n && (r, c) != (r0, c0) ==> v1[r][c] == v[r][c] && v2[r][c] == o.v[r][c]
    requires 0 <= r0 < n && 0 <= c0 < n && v2[r0][c0] == 0
    requires Givens(v, digits, n) ==> Givens(v1, digits, n)
    requires Givens(o.v, digits, n) ==> Givens(v2, digits, n)
    requires Digits(digits, n) && Marked(s.active, v, n) ==> Marked(s1.active, v1, n)
    requires Marked(o.s.active, o.v, n) ==> Marked(s2.active, v2, n)
    requires !o.solved && Kept(s1, v1, o, digits, n) && Kept(s2, v2, o2, digits, n)
    ensures Kept(s, v, o2, digits, n)
  {
    if !o2.solved {
      forall j | 0 <= j < |s.active| && s.active[j]
        ensures o2.s.active[j]
      {
        if !RowHas(cols, j, x) {
          assert s1.active[j];
        }
      }
      forall r, c | 0 <= r < n && 0 <= c < n
        ensures o2.v[r][c] == v[r][c] || o2.v[r][c] == 0
      {
        if (r, c) != (r0, c0) {
          assert v2[r][c] == o.v[r][c];
        }
      }
    }
  }

  /** A try that solves keeps the promises made for the state and grid before it. */
  lemma KeptSolved(s: DLState, s1: DLState, v: Values, v1: Values, o: DLOutcome, digits: seq<int>, n: int)
    requires IsGrid(v, n) && IsGrid(v1, n) && IsGrid(o.v, n)
    requires |s.active| == |s1.active| == |o.s.active|
    requires Givens(v, digits, n) ==> Givens(v1, digits, n)
    requires Digits(digits, n) && Marked(s.active, v, n) ==> Marked(s1.active, v1, n)
    requires o.solved && Kept(s1, v1, o, digits, n)
    ensures Kept(s, v, o, digits, n)
  {
  }

  /** initMatrix's givens pass from cell (row, col) on, in row-major order: every filled cell removes the row of its digit. */
  function DLInitFrom(s: DLState, b: int, n: int, v: Values, digits: seq<int>, row: int, col: int): (s': DLState)
    requires Grid(s, b, n) && IsGrid(v, n) && |digits| == n && Givens(v, digits, n)
    requires 0 <= row <= n && 0 <= col <= n
    ensures Grid(s', b, n)
    ensures Marked(s.active, v, n) ==> Marked(s'.active, v, n)
    decreases n - row, n - col
  {
    if row == n then s
    else if col == n then DLInitFrom(s, b, n, v, digits, row + 1, 0)
    else if v[row][col] == 0 then DLInitFrom(s, b, n, v, digits, row, col + 1)
    else
      var p := Alpha.DigitPosition(digits, v[row][col]);
      DecodeRowId(n, row, col, p);
      var x := RowId(n, row, col, p);
      GivenMarked(s, b, n, v, x);
      DLInitFrom(RemoveRow(s, Cols(b, n), 4 * n * n, x), b, n, v, digits, row, col + 1)
  }

  /** Removing the row of a filled cell keeps a filled cell behind every inactive cell column. */
  lemma GivenMarked(s: DLState, b: int, n: int, v: Values, x: int)
    requires Grid(s, b, n) && IsGrid(v, n) && 0 <= x < n * n * n
    requires 0 <= GridRow(n, x) < n && 0 <= GridCol(n, x) < n && v[GridRow(n, x)][GridCol(n, x)] != 0
    ensures 0 <= x < |Cols(b, n)| / 4
    ensures Marked(s.active, v, n) ==> Marked(RemoveRow(s, Cols(b, n), 4 * n * n, x).active, v, n)
  {
    if !Marked(s.active, v, n) {
      return;
    }
    var s1 := RemoveRow(s, Cols(b, n), 4 * n * n, x);
    forall r, c | 0 <= r < n && 0 <= c < n && 0 <= r * n + c < |s1.active| && !s1.active[r * n + c]
      ensures v[r][c] != 0
    {
      CellColumnOfRow(b, n, x, r, c);
      if (r, c) != (GridRow(n, x), GridCol(n, x)) {
        assert !s.active[r * n + c];
      }
    }
  }

  /** solve on a grid with values v: initMatrix's rows, its givens pass, then performCalcs. */
  function DLSolve(v: Values, digits: seq<int>, b: int, n: int): (o: DLOutcome)
    requires IsDims(b, n) && IsGrid(v, n) && |digits| == n && Givens(v, digits, n)
    ensures Grid(o.s, b, n) && IsGrid(o.v, n)
  {
    DLSearch(DLInitFrom(Initial(b, n), b, n, v, digits, 0, 0), b, n, v, digits, Depth(n))
  }

  /**
   * On givens within a distinct nonzero alphabet, a solve that succeeds
   * leaves every cell filled with a digit of the alphabet; one that fails
   * leaves every cell as it was or empty.
   */
  lemma SolveFilled(v: Values, digits: seq<int>, b: int, n: int)
    requires IsDims(b, n) && IsGrid(v, n) && Digits(digits, n) && Givens(v, digits, n)
    ensures var o := DLSolve(v, digits, b, n);
      (o.solved ==> forall r, c :: 0 <= r < n && 0 <= c < n ==> o.v[r][c] in digits) &&
      (!o.solved ==> forall r, c :: 0 <= r < n && 0 <= c < n ==> o.v[r][c] == v[r][c] || o.v[r][c] == 0)
  {
    var s0 := Initial(b, n);
    var s1 := DLInitFrom(s0, b, n, v, digits, 0, 0);
    KeptFilled(s1, v, DLSearch(s1, b, n, v, digits, Depth(n)), digits, n);
  }

  /** A search that keeps its promises from a marked start fills every cell with a digit when it succeeds. */
  lemma KeptFilled(s: DLState, v: Values, o: DLOutcome, digits: seq<int>, n: int)
    requires IsGrid(v, n) && IsGrid(o.v, n) && |s.active| == |o.s.active| == 4 * n * n
    requires Digits(digits, n) && Givens(v, digits, n) && Marked(s.active, v, n) && Kept(s, v, o, digits, n)
    ensures o.solved ==> forall r, c :: 0 <= r < n && 0 <= c < n ==> o.v[r][c] in digits
    ensures !o.solved ==> forall r, c :: 0 <= r < n && 0 <= c < n ==> o.v[r][c] == v[r][c] || o.v[r][c] == 0
  {
    if o.solved {
      forall r, c | 0 <= r < n && 0 <= c < n
        ensures o.v[r][c] in digits
      {
        LowPart(n, r, c);
        assert !o.s.active[r * n + c];
      }
    }
  }
}
