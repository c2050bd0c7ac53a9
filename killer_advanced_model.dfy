/**
 * KillerAdvancedSolver's matrix on values.  The node arena is the one the
 * two ring solvers share; on top of the column headers' isActive flags
 * every matrix row carries the two lock flags of its row header:
 * cageLock, set while the row's four nodes are out of their columns
 * because its digit is not possible in its cell's cage, and
 * constraintLock, set while a removed column has taken the row's other
 * three nodes out.  The column walks, the by-row operations, the cage
 * re-sync deleteRowsByCage, the cage pass of initMatrix and the recursion
 * of performCalcs are functions of this state; the class in
 * KillerAdvanced is proved to compute them.
 */
module KillerAdvancedModel {
  import opened Layout
  import opened Cells
  import opened Rings
  import opened LinkedMatrix
  import opened KillerRules
  import Alpha = Alphabet

  /** The matrix: links and counts, each column header's isActive flag, and each row header's cageLock and constraintLock. */
  datatype KState = KState(links: Links, active: seq<bool>, cageLock: seq<bool>, conLock: seq<bool>)

  /** s is a well-formed arena over the node columns cols with w headers and one pair of lock flags per row. */
  predicate Fit(s: KState, cols: seq<int>, w: int)
  {
    Ordered(s.links, cols, w) && RowsApart(cols) && |s.active| == w &&
    4 * |s.cageLock| == |cols| && 4 * |s.conLock| == |cols|
  }

  /** A constraint node's row has a pair of lock flags. */
  lemma RowFlags(s: KState, cols: seq<int>, w: int, q: int)
    requires Fit(s, cols, w) && IsNode(cols, w, q)
    ensures 0 <= RowOf(w, q) < |s.conLock| && |s.cageLock| == |s.conLock|
  {
    RowInRange(w, q, |s.conLock|);
  }

  /** The rows of the nodes qs all have lock flags. */
  lemma NodesFlagged(cols: seq<int>, w: int, qs: seq<int>, m: int)
    requires 4 * m == |cols| && forall i :: 0 <= i < |qs| ==> IsNode(cols, w, qs[i])
    ensures forall i :: 0 <= i < |qs| ==> 0 <= RowOf(w, qs[i]) < m
  {
    forall i | 0 <= i < |qs|
      ensures 0 <= RowOf(w, qs[i]) < m
    {
      RowInRange(w, qs[i], m);
    }
  }

  /** The walk from constraint node q is q, then the walk from the node below it. */
  lemma WalkHead(L: Links, cols: seq<int>, w: int, q: int)
    requires Ordered(L, cols, w) && IsNode(cols, w, q)
    ensures Hooked(L, cols, w, q)
    ensures WalkFrom(L, cols, w, q) == [q] + WalkFrom(L, cols, w, L.below[q])
    ensures forall y :: y in RowsOf(w, WalkFrom(L, cols, w, q)) <==> y == RowOf(w, q) || y in RowsOf(w, WalkFrom(L, cols, w, L.below[q]))
  {
    assert Hooked(L, cols, w, q);
    RowsOfAppend(w, [q], WalkFrom(L, cols, w, L.below[q]));
    assert RowsOf(w, [q]) == [RowOf(w, q)];
  }

  /** Picking from q followed by qs is q's pick followed by the picks from qs. */
  lemma PickedHead(cols: seq<int>, w: int, q: int, qs: seq<int>, flags: seq<bool>, want: bool)
    requires 4 * |flags| == |cols| && IsNode(cols, w, q) && forall i :: 0 <= i < |qs| ==> IsNode(cols, w, qs[i])
    ensures 0 <= RowOf(w, q) < |flags|
    ensures Picked(cols, w, [q] + qs, flags, want) == (if flags[RowOf(w, q)] == want then [q] else []) + Picked(cols, w, qs, flags, want)
  {
    RowInRange(w, q, |flags|);
    assert ([q] + qs)[1..] == qs;
  }

  /** The rows of q followed by ps hold the nodes right of q and those the rows of ps hold. */
  lemma OthersHead(cols: seq<int>, w: int, q: int, ps: seq<int>)
    requires |cols| % 4 == 0 && IsNode(cols, w, q) && forall i :: 0 <= i < |ps| ==> IsNode(cols, w, ps[i])
    ensures IsNode(cols, w, Right(w, q))
    ensures forall j :: Others(cols, w, [q] + ps, j) == Hits(cols, w, Right(w, q), 3, j) + Others(cols, w, ps, j)
  {
    RightNode(cols, w, q);
    assert ([q] + ps)[1..] == ps;
  }

  /** Counts after the three drops right of q and then a walk over the rows of ps: each lost what the rows of q and ps hold. */
  lemma DropThenRest(cols: seq<int>, w: int, q: int, ps: seq<int>, sums: seq<int>, sums1: seq<int>, sums': seq<int>)
    requires |cols| % 4 == 0 && IsNode(cols, w, q) && forall i :: 0 <= i < |ps| ==> IsNode(cols, w, ps[i])
    requires IsNode(cols, w, Right(w, q)) && |sums| == |sums1| == |sums'| == w
    requires forall j :: 0 <= j < w ==> sums1[j] == sums[j] - Hits(cols, w, Right(w, q), 3, j)
    requires forall j :: 0 <= j < w ==> sums'[j] == sums1[j] - Others(cols, w, ps, j)
    ensures forall j :: 0 <= j < w ==> sums'[j] == sums[j] - Others(cols, w, [q] + ps, j)
  {
    OthersHead(cols, w, q, ps);
  }

  /** Counts after the three lifts right of q and then a walk over the rows of ps: each gained what the rows of q and ps hold. */
  lemma LiftThenRest(cols: seq<int>, w: int, q: int, ps: seq<int>, sums: seq<int>, sums1: seq<int>, sums': seq<int>)
    requires |cols| % 4 == 0 && IsNode(cols, w, q) && forall i :: 0 <= i < |ps| ==> IsNode(cols, w, ps[i])
    requires IsNode(cols, w, Right(w, q)) && |sums| == |sums1| == |sums'| == w
    requires forall j :: 0 <= j < w ==> sums1[j] == sums[j] + Hits(cols, w, Right(w, q), 3, j)
    requires forall j :: 0 <= j < w ==> sums'[j] == sums1[j] + Others(cols, w, ps, j)
    ensures forall j :: 0 <= j < w ==> sums'[j] == sums[j] + Others(cols, w, [q] + ps, j)
  {
    OthersHead(cols, w, q, ps);
  }

  /** constraintLocks after one row's step of a removal walk and then the rest of the walk over rows1. */
  lemma LockThenRest(flags: seq<bool>, flags1: seq<bool>, flags': seq<bool>, cage: seq<bool>, x: int, rows: seq<int>, rows1: seq<int>)
    requires |flags1| == |flags| && |flags'| == |flags| && |cage| == |flags|
    requires forall y :: y in rows <==> y == x || y in rows1
    requires forall y :: 0 <= y < |flags| ==> flags1[y] == (flags[y] || (y == x && !cage[y]))
    requires forall y :: 0 <= y < |flags| ==> flags'[y] == (flags1[y] || (y in rows1 && !cage[y]))
    ensures forall y :: 0 <= y < |flags| ==> flags'[y] == (flags[y] || (y in rows && !cage[y]))
  {
  }

  /** constraintLocks after one row's step of a reset walk and then the rest of the walk over rows1. */
  lemma UnlockThenRest(flags: seq<bool>, flags1: seq<bool>, flags': seq<bool>, x: int, rows: seq<int>, rows1: seq<int>)
    requires |flags1| == |flags| && |flags'| == |flags|
    requires forall y :: y in rows <==> y == x || y in rows1
    requires forall y :: 0 <= y < |flags| ==> flags1[y] == (flags[y] && y != x)
    requires forall y :: 0 <= y < |flags| ==> flags'[y] == (flags1[y] && y !in rows1)
    ensures forall y :: 0 <= y < |flags| ==> flags'[y] == (flags[y] && y !in rows)
  {
  }

  /** The nodes of qs whose row's flag is want, in walk order. */
  function Picked(cols: seq<int>, w: int, qs: seq<int>, flags: seq<bool>, want: bool): (ps: seq<int>)
    requires 4 * |flags| == |cols| && forall i :: 0 <= i < |qs| ==> IsNode(cols, w, qs[i])
    ensures forall i :: 0 <= i < |ps| ==> IsNode(cols, w, ps[i])
  {
    if |qs| == 0 then []
    else
      assert IsNode(cols, w, qs[0]);
      RowInRange(w, qs[0], |flags|);
      (if flags[RowOf(w, qs[0])] == want then [qs[0]] else []) + Picked(cols, w, qs[1..], flags, want)
  }

  /** Two flag vectors that pick the same rows of qs pick the same nodes. */
  lemma {:induction false} PickedSame(cols: seq<int>, w: int, qs: seq<int>, f: seq<bool>, a: bool, g: seq<bool>, c: bool)
    requires 4 * |f| == |cols| && 4 * |g| == |cols| && forall i :: 0 <= i < |qs| ==> IsNode(cols, w, qs[i])
    requires forall i :: 0 <= i < |qs| ==> 0 <= RowOf(w, qs[i]) < |f| && (f[RowOf(w, qs[i])] == a) == (g[RowOf(w, qs[i])] == c)
    ensures Picked(cols, w, qs, f, a) == Picked(cols, w, qs, g, c)
    decreases |qs|
  {
    if |qs| > 0 {
      assert forall i :: 0 <= i < |qs| - 1 ==> qs[1..][i] == qs[i + 1];
      PickedSame(cols, w, qs[1..], f, a, g, c);
    }
  }

  /** No node met walking down below constraint node q belongs to q's row. */
  lemma WalkOtherRows(L: Links, cols: seq<int>, w: int, q: int)
    requires Ordered(L, cols, w) && RowsApart(cols) && IsNode(cols, w, q)
    ensures Hooked(L, cols, w, q)
    ensures forall i :: 0 <= i < |WalkFrom(L, cols, w, L.below[q])| ==> RowOf(w, WalkFrom(L, cols, w, L.below[q])[i]) != RowOf(w, q)
  {
    assert Hooked(L, cols, w, q);
    var qs := WalkFrom(L, cols, w, L.below[q]);
    forall i | 0 <= i < |qs|
      ensures RowOf(w, qs[i]) != RowOf(w, q)
    {
      var p := qs[i];
      if RowOf(w, p) == RowOf(w, q) {
        assert p - w == 4 * RowOf(w, p) + FamilyOf(w, p) && q - w == 4 * RowOf(w, q) + FamilyOf(w, q);
        RowApart(cols, w, q, p);
      }
    }
  }

  /** The other three nodes of q's row detached, right of q first: q's column keeps its links, each count loses one per node of the three in it. */
  function DropOthers(L: Links, cols: seq<int>, w: int, q: int): (L': Links)
    requires Ordered(L, cols, w) && RowsApart(cols) && IsNode(cols, w, q)
    ensures IsNode(cols, w, Right(w, q)) && Ordered(L', cols, w)
    ensures SameColumn(L, L', cols, w, cols[q - w]) && L'.below[q] == L.below[q]
    ensures forall j :: 0 <= j < w ==> L'.sums[j] == L.sums[j] - Hits(cols, w, Right(w, q), 3, j)
  {
    SpanMisses(cols, w, q);
    DropKeeps(L, cols, w, q);
    SpanElsewhere(L, cols, w, Right(w, q), 3, cols[q - w]);
    DropSpanSums(L, cols, w, Right(w, q));
    DropSpan(L, cols, w, Right(w, q), 3)
  }

  /** The other three nodes of q's row reattached, right of q first: q's column keeps its links, each count gains one per node of the three in it. */
  function LiftOthers(L: Links, cols: seq<int>, w: int, q: int): (L': Links)
    requires Ordered(L, cols, w) && RowsApart(cols) && IsNode(cols, w, q)
    ensures IsNode(cols, w, Right(w, q)) && Ordered(L', cols, w)
    ensures SameColumn(L, L', cols, w, cols[q - w]) && L'.below[q] == L.below[q]
    ensures forall j :: 0 <= j < w ==> L'.sums[j] == L.sums[j] + Hits(cols, w, Right(w, q), 3, j)
  {
    SpanMisses(cols, w, q);
    LiftKeeps(L, cols, w, q);
    SpanElsewhere(L, cols, w, Right(w, q), 3, cols[q - w]);
    LiftSpanSums(L, cols, w, Right(w, q));
    LiftSpan(L, cols, w, Right(w, q), 3)
  }

  /**
   * One row of removeConstraintsByCol's walk, at node q: unless the row is
   * cage-locked, its other three nodes are detached, each taking one off
   * its column's count, and it becomes constraint-locked.  q's column and
   * q's own link down are left alone.
   */
  function CoverStep(s: KState, cols: seq<int>, w: int, q: int): (s': KState)
    requires Fit(s, cols, w) && IsNode(cols, w, q)
    ensures Fit(s', cols, w) && s'.active == s.active && s'.cageLock == s.cageLock
    ensures 0 <= RowOf(w, q) < |s.conLock| && IsNode(cols, w, Right(w, q)) && Hooked(s.links, cols, w, q)
    ensures s'.links.below[q] == s.links.below[q] && SameColumn(s.links, s'.links, cols, w, cols[q - w])
    ensures forall j :: 0 <= j < w ==>
      s'.links.sums[j] == s.links.sums[j] - (if s.cageLock[RowOf(w, q)] then 0 else Hits(cols, w, Right(w, q), 3, j))
    ensures forall y :: 0 <= y < |s.conLock| ==> s'.conLock[y] == (s.conLock[y] || (y == RowOf(w, q) && !s.cageLock[y]))
  {
    RowFlags(s, cols, w, q);
    assert Hooked(s.links, cols, w, q);
    var x := RowOf(w, q);
    if s.cageLock[x] then s
    else KState(DropOthers(s.links, cols, w, q), s.active, s.cageLock, s.conLock[x := true])
  }

  /**
   * One row of resetConstraintsByCol's walk, at node q: if the row is
   * constraint-locked, its other three nodes are reattached, each adding
   * one to its column's count, and it is unlocked.
   */
  function UncoverStep(s: KState, cols: seq<int>, w: int, q: int): (s': KState)
    requires Fit(s, cols, w) && IsNode(cols, w, q)
    ensures Fit(s', cols, w) && s'.active == s.active && s'.cageLock == s.cageLock
    ensures 0 <= RowOf(w, q) < |s.conLock| && IsNode(cols, w, Right(w, q)) && Hooked(s.links, cols, w, q)
    ensures s'.links.below[q] == s.links.below[q] && SameColumn(s.links, s'.links, cols, w, cols[q - w])
    ensures forall j :: 0 <= j < w ==>
      s'.links.sums[j] == s.links.sums[j] + (if s.conLock[RowOf(w, q)] then Hits(cols, w, Right(w, q), 3, j) else 0)
    ensures forall y :: 0 <= y < |s.conLock| ==> s'.conLock[y] == (s.conLock[y] && y != RowOf(w, q))
  {
    RowFlags(s, cols, w, q);
    assert Hooked(s.links, cols, w, q);
    var x := RowOf(w, q);
    if !s.conLock[x] then s
    else KState(LiftOthers(s.links, cols, w, q), s.active, s.cageLock, s.conLock[x := false])
  }

  /**
   * removeConstraintsByCol's walk from node q down its column: every row
   * met that is not cage-locked detaches its other three nodes, each
   * taking one off its column's count, and becomes constraint-locked; the
   * walk ends at the header.  The other nodes of q's column keep their
   * links, each count loses one per node held there by those rows, and
   * exactly those rows become constraint-locked.
   */
  function CoverFrom(s: KState, cols: seq<int>, w: int, q: int): (s': KState)
    requires Fit(s, cols, w) && 0 <= q < w + |cols|
    ensures Fit(s', cols, w) && s'.active == s.active && s'.cageLock == s.cageLock
    ensures SameColumn(s.links, s'.links, cols, w, ColOf(cols, w, q))
    ensures forall j :: 0 <= j < w ==>
      s'.links.sums[j] == s.links.sums[j] - Others(cols, w, Picked(cols, w, WalkFrom(s.links, cols, w, q), s.cageLock, false), j)
    ensures forall y :: 0 <= y < |s.conLock| ==>
      s'.conLock[y] == (s.conLock[y] || (y in RowsOf(w, WalkFrom(s.links, cols, w, q)) && !s.cageLock[y]))
    decreases q
  {
    if q < w then s
    else
      var s1 := CoverStep(s, cols, w, q);
      var s' := CoverFrom(s1, cols, w, s1.links.below[q]);
      CoverJoin(s, s1, s', cols, w, q);
      s'
  }

  /** The walk from q is the step at q, then the walk from the node below q. */
  lemma CoverJoin(s: KState, s1: KState, s': KState, cols: seq<int>, w: int, q: int)
    requires Fit(s, cols, w) && Fit(s1, cols, w) && Fit(s', cols, w) && IsNode(cols, w, q)
    requires 0 <= RowOf(w, q) < |s.conLock| && IsNode(cols, w, Right(w, q)) && s1.cageLock == s.cageLock
    requires Hooked(s.links, cols, w, q) && s1.links.below[q] == s.links.below[q] && SameColumn(s.links, s1.links, cols, w, cols[q - w])
    requires forall j :: 0 <= j < w ==>
      s1.links.sums[j] == s.links.sums[j] - (if s.cageLock[RowOf(w, q)] then 0 else Hits(cols, w, Right(w, q), 3, j))
    requires forall y :: 0 <= y < |s.conLock| ==> s1.conLock[y] == (s.conLock[y] || (y == RowOf(w, q) && !s.cageLock[y]))
    requires var q1 := s.links.below[q];
      SameColumn(s1.links, s'.links, cols, w, cols[q - w]) &&
      (forall j :: 0 <= j < w ==>
        s'.links.sums[j] == s1.links.sums[j] - Others(cols, w, Picked(cols, w, WalkFrom(s1.links, cols, w, q1), s.cageLock, false), j)) &&
      (forall y :: 0 <= y < |s.conLock| ==>
        s'.conLock[y] == (s1.conLock[y] || (y in RowsOf(w, WalkFrom(s1.links, cols, w, q1)) && !s.cageLock[y])))
    ensures SameColumn(s.links, s'.links, cols, w, cols[q - w])
    ensures forall j :: 0 <= j < w ==>
      s'.links.sums[j] == s.links.sums[j] - Others(cols, w, Picked(cols, w, WalkFrom(s.links, cols, w, q), s.cageLock, false), j)
    ensures forall y :: 0 <= y < |s.conLock| ==>
      s'.conLock[y] == (s.conLock[y] || (y in RowsOf(w, WalkFrom(s.links, cols, w, q)) && !s.cageLock[y]))
  {
    var L, x, q1 := s.links, RowOf(w, q), s.links.below[q];
    WalkHead(L, cols, w, q);
    WalkSame(L, s1.links, cols, w, q1);
    var qs1 := WalkFrom(L, cols, w, q1);
    PickedHead(cols, w, q, qs1, s.cageLock, false);
    var ps1 := Picked(cols, w, qs1, s.cageLock, false);
    if s.cageLock[x] {
      assert Picked(cols, w, [q] + qs1, s.cageLock, false) == ps1;
    } else {
      DropThenRest(cols, w, q, ps1, L.sums, s1.links.sums, s'.links.sums);
    }
    LockThenRest(s.conLock, s1.conLock, s'.conLock, s.cageLock, x, RowsOf(w, [q] + qs1), RowsOf(w, qs1));
  }

  /**
   * resetConstraintsByCol's walk from node q down: every row met that is
   * constraint-locked reattaches its other three nodes, each adding one to
   * its column's count, and is unlocked.  The other nodes of q's column
   * keep their links, each count gains one per node held there by those
   * rows, and exactly those rows are unlocked.
   */
  function UncoverFrom(s: KState, cols: seq<int>, w: int, q: int): (s': KState)
    requires Fit(s, cols, w) && 0 <= q < w + |cols|
    ensures Fit(s', cols, w) && s'.active == s.active && s'.cageLock == s.cageLock
    ensures SameColumn(s.links, s'.links, cols, w, ColOf(cols, w, q))
    ensures forall j :: 0 <= j < w ==>
      s'.links.sums[j] == s.links.sums[j] + Others(cols, w, Picked(cols, w, WalkFrom(s.links, cols, w, q), s.conLock, true), j)
    ensures forall y :: 0 <= y < |s.conLock| ==>
      s'.conLock[y] == (s.conLock[y] && y !in RowsOf(w, WalkFrom(s.links, cols, w, q)))
    decreases q
  {
    if q < w then s
    else
      var s1 := UncoverStep(s, cols, w, q);
      var s' := UncoverFrom(s1, cols, w, s1.links.below[q]);
      UncoverJoin(s, s1, s', cols, w, q);
      s'
  }

  /** The reset walk from q is the step at q, then the reset walk from the node below q. */
  lemma UncoverJoin(s: KState, s1: KState, s': KState, cols: seq<int>, w: int, q: int)
    requires Fit(s, cols, w) && Fit(s1, cols, w) && Fit(s', cols, w) && IsNode(cols, w, q)
    requires 0 <= RowOf(w, q) < |s.conLock| && IsNode(cols, w, Right(w, q)) && s1.cageLock == s.cageLock
    requires Hooked(s.links, cols, w, q) && s1.links.below[q] == s.links.below[q] && SameColumn(s.links, s1.links, cols, w, cols[q - w])
    requires forall j :: 0 <= j < w ==>
      s1.links.sums[j] == s.links.sums[j] + (if s.conLock[RowOf(w, q)] then Hits(cols, w, Right(w, q), 3, j) else 0)
    requires forall y :: 0 <= y < |s.conLock| ==> s1.conLock[y] == (s.conLock[y] && y != RowOf(w, q))
    requires var q1 := s.links.below[q];
      SameColumn(s1.links, s'.links, cols, w, cols[q - w]) &&
      (forall j :: 0 <= j < w ==>
        s'.links.sums[j] == s1.links.sums[j] + Others(cols, w, Picked(cols, w, WalkFrom(s1.links, cols, w, q1), s1.conLock, true), j)) &&
      (forall y :: 0 <= y < |s.conLock| ==>
        s'.conLock[y] == (s1.conLock[y] && y !in RowsOf(w, WalkFrom(s1.links, cols, w, q1))))
    ensures SameColumn(s.links, s'.links, cols, w, cols[q - w])
    ensures forall j :: 0 <= j < w ==>
      s'.links.sums[j] == s.links.sums[j] + Others(cols, w, Picked(cols, w, WalkFrom(s.links, cols, w, q), s.conLock, true), j)
    ensures forall y :: 0 <= y < |s.conLock| ==>
      s'.conLock[y] == (s.conLock[y] && y !in RowsOf(w, WalkFrom(s.links, cols, w, q)))
  {
    var L, x, q1 := s.links, RowOf(w, q), s.links.below[q];
    WalkHead(L, cols, w, q);
    WalkSame(L, s1.links, cols, w, q1);
    var qs1 := WalkFrom(L, cols, w, q1);
    WalkOtherRows(L, cols, w, q);
    NodesFlagged(cols, w, qs1, |s.conLock|);
    PickedSame(cols, w, qs1, s1.conLock, true, s.conLock, true);
    PickedHead(cols, w, q, qs1, s.conLock, true);
    var ps1 := Picked(cols, w, qs1, s.conLock, true);
    if !s.conLock[x] {
      assert Picked(cols, w, [q] + qs1, s.conLock, true) == ps1;
    } else {
      LiftThenRest(cols, w, q, ps1, L.sums, s1.links.sums, s'.links.sums);
    }
    UnlockThenRest(s.conLock, s1.conLock, s'.conLock, x, RowsOf(w, [q] + qs1), RowsOf(w, qs1));
  }

  /** removeConstraintsByCol(h): the walk from the header's first node. */
  function Cover(s: KState, cols: seq<int>, w: int, h: int): (s': KState)
    requires Fit(s, cols, w) && 0 <= h < w
    ensures Fit(s', cols, w) && s'.active == s.active && s'.cageLock == s.cageLock
  {
    assert Hooked(s.links, cols, w, h);
    CoverFrom(s, cols, w, s.links.below[h])
  }

  /** resetConstraintsByCol(h): the walk from the header's first node. */
  function Uncover(s: KState, cols: seq<int>, w: int, h: int): (s': KState)
    requires Fit(s, cols, w) && 0 <= h < w
    ensures Fit(s', cols, w) && s'.active == s.active && s'.cageLock == s.cageLock
  {
    assert Hooked(s.links, cols, w, h);
    UncoverFrom(s, cols, w, s.links.below[h])
  }

  /** No row met walking down column h is constraint-locked. */
  predicate Unlocked(s: KState, cols: seq<int>, w: int, h: int)
    requires Fit(s, cols, w) && 0 <= h < w
  {
    assert Hooked(s.links, cols, w, h);
    var qs := WalkFrom(s.links, cols, w, s.links.below[h]);
    forall i :: 0 <= i < |qs| ==> 0 <= RowOf(w, qs[i]) < |s.conLock| && !s.conLock[RowOf(w, qs[i])]
  }

  /**
   * Resetting a column straight after removing it, when none of its rows
   * was constraint-locked, walks the same rows and reattaches exactly the
   * rows the removal detached: every count and every constraintLock comes
   * back and the column's own links are untouched.
   */
  lemma CoverUncover(s: KState, cols: seq<int>, w: int, h: int)
    requires Fit(s, cols, w) && 0 <= h < w && Unlocked(s, cols, w, h)
    ensures Uncover(Cover(s, cols, w, h), cols, w, h).links.sums == s.links.sums
    ensures Uncover(Cover(s, cols, w, h), cols, w, h).conLock == s.conLock
    ensures SameColumn(s.links, Uncover(Cover(s, cols, w, h), cols, w, h).links, cols, w, h)
  {
    assert Hooked(s.links, cols, w, h);
    var q := s.links.below[h];
    var s1 := CoverFrom(s, cols, w, q);
    assert s1.links.below[h] == q;
    WalkSame(s.links, s1.links, cols, w, q);
    var s2 := UncoverFrom(s1, cols, w, q);
    var qs := WalkFrom(s.links, cols, w, q);
    NodesFlagged(cols, w, qs, |s.conLock|);
    UnlockedRows(w, qs, s.conLock);
    LockedAsCaged(cols, w, qs, s.conLock, s1.conLock, s.cageLock);
    SumsRestored(cols, w, Picked(cols, w, qs, s.cageLock, false), s.links.sums, s1.links.sums, s2.links.sums);
    LocksRestored(s.conLock, s1.conLock, s2.conLock, s.cageLock, RowsOf(w, qs));
  }

  /** Rows none of whose nodes' rows are locked in flags are each unlocked. */
  lemma UnlockedRows(w: int, qs: seq<int>, flags: seq<bool>)
    requires forall i :: 0 <= i < |qs| ==> 0 <= RowOf(w, qs[i]) < |flags| && !flags[RowOf(w, qs[i])]
    ensures forall y :: y in RowsOf(w, qs) ==> 0 <= y < |flags| && !flags[y]
  {
    forall y | y in RowsOf(w, qs)
      ensures 0 <= y < |flags| && !flags[y]
    {
      var i :| 0 <= i < |qs| && RowsOf(w, qs)[i] == y;
    }
  }

  /** When a walk over unlocked rows locks exactly the rows that are not cage-locked, it then picks the same nodes as the cage locks do. */
  lemma LockedAsCaged(cols: seq<int>, w: int, qs: seq<int>, flags: seq<bool>, flags1: seq<bool>, cage: seq<bool>)
    requires 4 * |flags| == |cols| && |flags1| == |flags| && |cage| == |flags| && forall i :: 0 <= i < |qs| ==> IsNode(cols, w, qs[i])
    requires forall i :: 0 <= i < |qs| ==> 0 <= RowOf(w, qs[i]) < |flags| && !flags[RowOf(w, qs[i])]
    requires forall y :: 0 <= y < |flags| ==> flags1[y] == (flags[y] || (y in RowsOf(w, qs) && !cage[y]))
    ensures Picked(cols, w, qs, flags1, true) == Picked(cols, w, qs, cage, false)
  {
    forall i | 0 <= i < |qs|
      ensures 0 <= RowOf(w, qs[i]) < |flags1| && (flags1[RowOf(w, qs[i])] <==> !cage[RowOf(w, qs[i])])
    {
      assert RowsOf(w, qs)[i] == RowOf(w, qs[i]);
    }
    PickedSame(cols, w, qs, flags1, true, cage, false);
  }

  /** Counts that lost what the rows of ps hold and then gained it back are as they were. */
  lemma SumsRestored(cols: seq<int>, w: int, ps: seq<int>, sums: seq<int>, sums1: seq<int>, sums2: seq<int>)
    requires |cols| % 4 == 0 && forall i :: 0 <= i < |ps| ==> IsNode(cols, w, ps[i])
    requires |sums| == |sums1| == |sums2| == w
    requires forall j :: 0 <= j < w ==> sums1[j] == sums[j] - Others(cols, w, ps, j)
    requires forall j :: 0 <= j < w ==> sums2[j] == sums1[j] + Others(cols, w, ps, j)
    ensures sums2 == sums
  {
    assert forall j :: 0 <= j < w ==> sums2[j] == sums[j];
  }

  /** constraintLocks set on unlocked rows and then cleared on the same rows are as they were. */
  lemma LocksRestored(flags: seq<bool>, flags1: seq<bool>, flags2: seq<bool>, cage: seq<bool>, rows: seq<int>)
    requires |flags1| == |flags| && |flags2| == |flags| && |cage| == |flags|
    requires forall y :: y in rows ==> 0 <= y < |flags| && !flags[y]
    requires forall y :: 0 <= y < |flags| ==> flags1[y] == (flags[y] || (y in rows && !cage[y]))
    requires forall y :: 0 <= y < |flags| ==> flags2[y] == (flags1[y] && y !in rows)
    ensures flags2 == flags
  {
    assert forall y :: 0 <= y < |flags| ==> flags2[y] == flags[y];
  }

  /** The first k of removeConstraintsByRow(x)'s four removeConstraintsByCol calls, in family order. */
  function CoverRow(s: KState, cols: seq<int>, w: int, x: int, k: int): (s': KState)
    requires Fit(s, cols, w) && 0 <= x < |cols| / 4 && 0 <= k <= 4
    ensures Fit(s', cols, w) && s'.active == s.active && s'.cageLock == s.cageLock
    decreases k
  {
    if k == 0 then s
    else
      assert 4 * x + 4 <= |cols|;
      Cover(CoverRow(s, cols, w, x, k - 1), cols, w, cols[4 * x + k - 1])
  }

  /** The first k of resetConstraintsByRow(x)'s four resetConstraintsByCol calls, in family order. */
  function UncoverRow(s: KState, cols: seq<int>, w: int, x: int, k: int): (s': KState)
    requires Fit(s, cols, w) && 0 <= x < |cols| / 4 && 0 <= k <= 4
    ensures Fit(s', cols, w) && s'.active == s.active && s'.cageLock == s.cageLock
    decreases k
  {
    if k == 0 then s
    else
      assert 4 * x + 4 <= |cols|;
      Uncover(UncoverRow(s, cols, w, x, k - 1), cols, w, cols[4 * x + k - 1])
  }

  /**
   * removeConstraintsByRow(x): clear the isActive flags of x's four
   * columns, then remove those columns in family order.  The cage locks
   * are untouched.
   */
  function RemoveRow(s: KState, cols: seq<int>, w: int, x: int): (s': KState)
    requires Fit(s, cols, w) && 0 <= x < |cols| / 4
    ensures Fit(s', cols, w) && s'.cageLock == s.cageLock
    ensures forall j :: 0 <= j < w ==> s'.active[j] == (s.active[j] && !RowHas(cols, j, x))
  {
    var s1 := KState(s.links, s.active[cols[4 * x] := false][cols[4 * x + 1] := false][cols[4 * x + 2] := false][cols[4 * x + 3] := false],
                     s.cageLock, s.conLock);
    CoverRow(s1, cols, w, x, 4)
  }

  /** resetConstraintsByRow(x): set the isActive flags of x's four columns, then reset those columns in family order. */
  function ResetRow(s: KState, cols: seq<int>, w: int, x: int): (s': KState)
    requires Fit(s, cols, w) && 0 <= x < |cols| / 4
    ensures Fit(s', cols, w) && s'.cageLock == s.cageLock
    ensures forall j :: 0 <= j < w ==> s'.active[j] == (s.active[j] || RowHas(cols, j, x))
  {
    var s1 := KState(s.links, s.active[cols[4 * x] := true][cols[4 * x + 1] := true][cols[4 * x + 2] := true][cols[4 * x + 3] := true],
                     s.cageLock, s.conLock);
    UncoverRow(s1, cols, w, x, 4)
  }

  /** The four nodes of row x detached, from its cell node rightwards: each count loses one per node of the row in it. */
  function DropRow(L: Links, cols: seq<int>, w: int, x: int): (L': Links)
    requires Ordered(L, cols, w) && 0 < w && 0 <= x < |cols| / 4
    ensures IsNode(cols, w, Node(w, x, 0)) && Ordered(L', cols, w)
    ensures forall j :: 0 <= j < w ==> L'.sums[j] == L.sums[j] - Hits(cols, w, Node(w, x, 0), 4, j)
  {
    var p := Node(w, x, 0);
    forall j | 0 <= j < w
      ensures DropSpan(L, cols, w, p, 4).sums[j] == L.sums[j] - Hits(cols, w, p, 4, j)
    {
      DropSpanSum(L, cols, w, p, 4, j);
    }
    DropSpan(L, cols, w, p, 4)
  }

  /** The four nodes of row x reattached, from its cell node rightwards: each count gains one per node of the row in it. */
  function LiftRow(L: Links, cols: seq<int>, w: int, x: int): (L': Links)
    requires Ordered(L, cols, w) && 0 < w && 0 <= x < |cols| / 4
    ensures IsNode(cols, w, Node(w, x, 0)) && Ordered(L', cols, w)
    ensures forall j :: 0 <= j < w ==> L'.sums[j] == L.sums[j] + Hits(cols, w, Node(w, x, 0), 4, j)
  {
    var p := Node(w, x, 0);
    forall j | 0 <= j < w
      ensures LiftSpan(L, cols, w, p, 4).sums[j] == L.sums[j] + Hits(cols, w, p, 4, j)
    {
      LiftSpanSum(L, cols, w, p, 4, j);
    }
    LiftSpan(L, cols, w, p, 4)
  }

  /**
   * deleteRowsByCage at matrix row x, whose digit is allowed or not: a
   * constraint-locked row is skipped; otherwise a cage-locked row whose
   * digit is allowed is unlocked and its four nodes reattached, and an
   * unlocked row whose digit is not allowed is locked and its four nodes
   * detached.  Either way the row ends cage-locked exactly when its digit
   * is not allowed.
   */
  function SyncRow(s: KState, cols: seq<int>, w: int, x: int, allowed: bool): (s': KState)
    requires Fit(s, cols, w) && 0 < w && 0 <= x < |s.cageLock|
    ensures Fit(s', cols, w) && s'.active == s.active && s'.conLock == s.conLock
    ensures forall y :: 0 <= y < |s.cageLock| ==> s'.cageLock[y] == if y == x && !s.conLock[x] then !allowed else s.cageLock[y]
  {
    if s.conLock[x] then s
    else if s.cageLock[x] && allowed then KState(LiftRow(s.links, cols, w, x), s.active, s.cageLock[x := false], s.conLock)
    else if !s.cageLock[x] && !allowed then KState(DropRow(s.links, cols, w, x), s.active, s.cageLock[x := true], s.conLock)
    else s
  }

  /** The cell of matrix row y. */
  function CellOf(n: int, y: int): Coord
    requires n > 0
  {
    (GridRow(n, y), GridCol(n, y))
  }

  /** The matrix row deleteRowsByCage and initMatrix compute for cell (r, c) and the digit digits[i]: the row of the digit's least position. */
  function CageRow(n: int, cell: Coord, digits: seq<int>, i: int): (x: int)
    requires n > 0 && 0 <= cell.0 < n && 0 <= cell.1 < n && |digits| == n && 0 <= i < n
    ensures 0 <= x < n * n * n && CellOf(n, x) == cell
    ensures GridDigit(n, x) == Alpha.DigitPosition(digits, digits[i]) && digits[GridDigit(n, x)] == digits[i]
  {
    var d := Alpha.DigitPosition(digits, digits[i]);
    DecodeRowId(n, cell.0, cell.1, d);
    RowId(n, cell.0, cell.1, d)
  }

  /** A matrix row is the one computed for cell and digit exactly when it decodes to that cell and to the digit's least position. */
  lemma CageRowIs(n: int, cell: Coord, digits: seq<int>, i: int, y: int)
    requires n > 0 && 0 <= cell.0 < n && 0 <= cell.1 < n && |digits| == n && 0 <= i < n && 0 <= y < n * n * n
    ensures y == CageRow(n, cell, digits, i) <==> CellOf(n, y) == cell && GridDigit(n, y) == Alpha.DigitPosition(digits, digits[i])
  {
    EncodeDecode(n, y);
  }

  /** Row y is met by deleteRowsByCage's pass for digits[i] over the cells from j on, avoiding the forbidden row f. */
  predicate MetFrom(n: int, cells: seq<Coord>, digits: seq<int>, f: int, i: int, j: int, y: int)
    requires n > 0 && |digits| == n && 0 <= i < n && 0 <= j <= |cells|
  {
    y != f && GridDigit(n, y) == Alpha.DigitPosition(digits, digits[i]) && CellOf(n, y) in cells[j..]
  }

  /**
   * deleteRowsByCage's inner loop for the digit digits[i], from the j-th
   * cell of the cage on: every row met that is not constraint-locked ends
   * cage-locked exactly when the digit is not allowed; no other row
   * changes its locks.
   */
  function SyncCells(s: KState, cols: seq<int>, w: int, n: int, cells: seq<Coord>, digits: seq<int>, allowed: set<int>, f: int, i: int, j: int): (s': KState)
    requires Fit(s, cols, w) && 0 < w && n > 0 && |cols| == 4 * (n * n * n) && |digits| == n && InGrid(cells, n)
    requires 0 <= i < n && 0 <= j <= |cells|
    ensures Fit(s', cols, w) && s'.active == s.active && s'.conLock == s.conLock
    ensures forall y :: 0 <= y < |s.cageLock| ==>
      s'.cageLock[y] == if MetFrom(n, cells, digits, f, i, j, y) && !s.conLock[y] then digits[i] !in allowed else s.cageLock[y]
    decreases |cells| - j
  {
    if j == |cells| then s
    else
      var x := CageRow(n, cells[j], digits, i);
      var s1 := if x == f then s else SyncRow(s, cols, w, x, digits[i] in allowed);
      var s' := SyncCells(s1, cols, w, n, cells, digits, allowed, f, i, j + 1);
      SyncCellsJoin(s.cageLock, s1.cageLock, s'.cageLock, s.conLock, n, cells, digits, allowed, f, i, j);
      s'
  }

  /** The inner loop at cell j is the row of cell j, then the loop from cell j + 1. */
  lemma SyncCellsJoin(flags: seq<bool>, flags1: seq<bool>, flags': seq<bool>, con: seq<bool>, n: int, cells: seq<Coord>,
                      digits: seq<int>, allowed: set<int>, f: int, i: int, j: int)
    requires n > 0 && |digits| == n && InGrid(cells, n) && 0 <= i < n && 0 <= j < |cells|
    requires |flags| == n * n * n && |flags1| == |flags| && |flags'| == |flags| && |con| == |flags|
    requires var x := CageRow(n, cells[j], digits, i);
      forall y :: 0 <= y < |flags| ==> flags1[y] == if y == x && x != f && !con[y] then digits[i] !in allowed else flags[y]
    requires forall y :: 0 <= y < |flags| ==>
      flags'[y] == if MetFrom(n, cells, digits, f, i, j + 1, y) && !con[y] then digits[i] !in allowed else flags1[y]
    ensures forall y :: 0 <= y < |flags| ==>
      flags'[y] == if MetFrom(n, cells, digits, f, i, j, y) && !con[y] then digits[i] !in allowed else flags[y]
  {
    assert cells[j..] == [cells[j]] + cells[j + 1..];
    forall y | 0 <= y < |flags|
      ensures MetFrom(n, cells, digits, f, i, j, y) <==> MetFrom(n, cells, digits, f, i, j + 1, y) || (y == CageRow(n, cells[j], digits, i) && y != f)
    {
      CageRowIs(n, cells[j], digits, i, y);
    }
  }

  /** Row y's digit position is the least position of one of the digits from the i-th on. */
  predicate ReachedFrom(digits: seq<int>, i: int, d: int)
  {
    exists i' :: i <= i' < |digits| && 0 <= i' && Alpha.DigitPosition(digits, digits[i']) == d
  }

  /**
   * deleteRowsByCage's outer loop from the digit digits[i] on: every row of
   * a cell of the cage, other than the forbidden row f, whose digit is one
   * of the digits from i on and which is not constraint-locked, ends
   * cage-locked exactly when its digit is not allowed.
   */
  function SyncDigits(s: KState, cols: seq<int>, w: int, n: int, cells: seq<Coord>, digits: seq<int>, allowed: set<int>, f: int, i: int): (s': KState)
    requires Fit(s, cols, w) && 0 < w && n > 0 && |cols| == 4 * (n * n * n) && |digits| == n && InGrid(cells, n) && 0 <= i <= n
    ensures Fit(s', cols, w) && s'.active == s.active && s'.conLock == s.conLock
    ensures forall y :: 0 <= y < |s.cageLock| ==> 0 <= GridDigit(n, y) < n
    ensures forall y :: 0 <= y < |s.cageLock| ==>
      s'.cageLock[y] == (if y != f && CellOf(n, y) in cells && ReachedFrom(digits, i, GridDigit(n, y)) && !s.conLock[y]
                         then digits[GridDigit(n, y)] !in allowed else s.cageLock[y])
    decreases n - i
  {
    if i == n then
      forall y | 0 <= y < |s.cageLock|
        ensures 0 <= GridDigit(n, y) < n
      {
        DecodeBounds(n, y);
      }
      s
    else
      var s1 := SyncCells(s, cols, w, n, cells, digits, allowed, f, i, 0);
      var s' := SyncDigits(s1, cols, w, n, cells, digits, allowed, f, i + 1);
      SyncDigitsJoin(s.cageLock, s1.cageLock, s'.cageLock, s.conLock, n, cells, digits, allowed, f, i);
      s'
  }

  /** The outer loop at digit i is the inner loop for it, then the outer loop from digit i + 1. */
  lemma SyncDigitsJoin(flags: seq<bool>, flags1: seq<bool>, flags': seq<bool>, con: seq<bool>, n: int, cells: seq<Coord>,
                       digits: seq<int>, allowed: set<int>, f: int, i: int)
    requires n > 0 && |digits| == n && InGrid(cells, n) && 0 <= i < n
    requires |flags| == n * n * n && |flags1| == |flags| && |flags'| == |flags| && |con| == |flags|
    requires forall y :: 0 <= y < |flags| ==>
      flags1[y] == if MetFrom(n, cells, digits, f, i, 0, y) && !con[y] then digits[i] !in allowed else flags[y]
    requires forall y :: 0 <= y < |flags| ==> 0 <= GridDigit(n, y) < n
    requires forall y :: 0 <= y < |flags| ==>
      flags'[y] == (if y != f && CellOf(n, y) in cells && ReachedFrom(digits, i + 1, GridDigit(n, y)) && !con[y]
                    then digits[GridDigit(n, y)] !in allowed else flags1[y])
    ensures forall y :: 0 <= y < |flags| ==> 0 <= GridDigit(n, y) < n
    ensures forall y :: 0 <= y < |flags| ==>
      flags'[y] == (if y != f && CellOf(n, y) in cells && ReachedFrom(digits, i, GridDigit(n, y)) && !con[y]
                    then digits[GridDigit(n, y)] !in allowed else flags[y])
  {
    assert cells[0..] == cells;
    forall y | 0 <= y < |flags|
      ensures ReachedFrom(digits, i, GridDigit(n, y)) <==> Alpha.DigitPosition(digits, digits[i]) == GridDigit(n, y) || ReachedFrom(digits, i + 1, GridDigit(n, y))
    {
      var d := GridDigit(n, y);
      if ReachedFrom(digits, i, d) && Alpha.DigitPosition(digits, digits[i]) != d {
        var i' :| i <= i' < |digits| && 0 <= i' && Alpha.DigitPosition(digits, digits[i']) == d;
        assert i' != i;
      }
    }
    forall y | 0 <= y < |flags| && Alpha.DigitPosition(digits, digits[i]) == GridDigit(n, y)
      ensures digits[GridDigit(n, y)] == digits[i]
    {
    }
  }

  /**
   * deleteRowsByCage(cage, f), once findCombinations has left the digits
   * allowed: the rows of the cage's cells, all digits, forbidden row f
   * left alone.
   */
  function Sync(s: KState, cols: seq<int>, w: int, n: int, cells: seq<Coord>, digits: seq<int>, allowed: set<int>, f: int): (s': KState)
    requires Fit(s, cols, w) && 0 < w && n > 0 && |cols| == 4 * (n * n * n) && |digits| == n && InGrid(cells, n)
    ensures Fit(s', cols, w) && s'.active == s.active && s'.conLock == s.conLock
    ensures forall y :: 0 <= y < |s.cageLock| ==> 0 <= GridDigit(n, y) < n
    ensures forall y :: 0 <= y < |s.cageLock| ==>
      s'.cageLock[y] == (if y != f && CellOf(n, y) in cells && ReachedFrom(digits, 0, GridDigit(n, y)) && !s.conLock[y]
                         then digits[GridDigit(n, y)] !in allowed else s.cageLock[y])
  {
    SyncDigits(s, cols, w, n, cells, digits, allowed, f, 0)
  }

  /**
   * Every digit position is reached by the outer loop when the alphabet is
   * distinct: deleteRowsByCage then settles the cage lock of every row of
   * the cage's cells except f and the constraint-locked ones, locked
   * exactly when the row's digit is not allowed.
   */
  lemma SyncDistinct(s: KState, cols: seq<int>, w: int, n: int, cells: seq<Coord>, digits: seq<int>, allowed: set<int>, f: int)
    requires Fit(s, cols, w) && 0 < w && n > 0 && |cols| == 4 * (n * n * n) && Alpha.Distinct(digits) && |digits| == n && InGrid(cells, n)
    ensures forall y :: 0 <= y < |s.cageLock| ==> 0 <= GridDigit(n, y) < n
    ensures forall y :: 0 <= y < |s.cageLock| ==>
      Sync(s, cols, w, n, cells, digits, allowed, f).cageLock[y] ==
        (if y != f && CellOf(n, y) in cells && !s.conLock[y] then digits[GridDigit(n, y)] !in allowed else s.cageLock[y])
  {
    forall y | 0 <= y < |s.cageLock|
      ensures 0 <= GridDigit(n, y) < n && ReachedFrom(digits, 0, GridDigit(n, y))
    {
      DecodeBounds(n, y);
      Alpha.PositionOfDigit(digits, GridDigit(n, y));
    }
  }

  /** initMatrix's cage pass at matrix row x: detach its four nodes and set its cage lock, whatever its locks were. */
  function LockRow(s: KState, cols: seq<int>, w: int, x: int): (s': KState)
    requires Fit(s, cols, w) && 0 < w && 0 <= x < |s.cageLock|
    ensures Fit(s', cols, w) && s'.active == s.active && s'.conLock == s.conLock
    ensures s'.cageLock == s.cageLock[x := true]
  {
    KState(DropRow(s.links, cols, w, x), s.active, s.cageLock[x := true], s.conLock)
  }

  /** initMatrix's loop over the cells of a cage for the digit digits[i], from the j-th cell on: each cell's row of that digit is locked. */
  function InitCells(s: KState, cols: seq<int>, w: int, n: int, cells: seq<Coord>, digits: seq<int>, i: int, j: int): (s': KState)
    requires Fit(s, cols, w) && 0 < w && n > 0 && |cols| == 4 * (n * n * n) && |digits| == n && InGrid(cells, n)
    requires 0 <= i < n && 0 <= j <= |cells|
    ensures Fit(s', cols, w) && s'.active == s.active && s'.conLock == s.conLock
    ensures forall y :: 0 <= y < |s.cageLock| ==>
      s'.cageLock[y] == (s.cageLock[y] || (GridDigit(n, y) == Alpha.DigitPosition(digits, digits[i]) && CellOf(n, y) in cells[j..]))
    decreases |cells| - j
  {
    if j == |cells| then s
    else
      var x := CageRow(n, cells[j], digits, i);
      var s1 := LockRow(s, cols, w, x);
      var s' := InitCells(s1, cols, w, n, cells, digits, i, j + 1);
      assert cells[j..] == [cells[j]] + cells[j + 1..];
      forall y | 0 <= y < |s.cageLock|
        ensures y == x <==> CellOf(n, y) == cells[j] && GridDigit(n, y) == Alpha.DigitPosition(digits, digits[i])
      {
        CageRowIs(n, cells[j], digits, i, y);
      }
      s'
  }

  /** Position d is the least position of one of the digits from the i-th on that the set possible leaves out. */
  predicate BarredFrom(digits: seq<int>, possible: set<int>, i: int, d: int)
  {
    exists i' :: i <= i' < |digits| && 0 <= i' && digits[i'] !in possible && Alpha.DigitPosition(digits, digits[i']) == d
  }

  /**
   * initMatrix's loop over the digits for one cage, from digits[i] on:
   * every digit the cage's possible digits leave out locks its row in
   * each of the cage's cells.
   */
  function InitDigits(s: KState, cols: seq<int>, w: int, n: int, cells: seq<Coord>, digits: seq<int>, possible: set<int>, i: int): (s': KState)
    requires Fit(s, cols, w) && 0 < w && n > 0 && |cols| == 4 * (n * n * n) && |digits| == n && InGrid(cells, n) && 0 <= i <= n
    ensures Fit(s', cols, w) && s'.active == s.active && s'.conLock == s.conLock
    ensures forall y :: 0 <= y < |s.cageLock| ==>
      s'.cageLock[y] == (s.cageLock[y] || (CellOf(n, y) in cells && BarredFrom(digits, possible, i, GridDigit(n, y))))
    decreases n - i
  {
    if i == n then s
    else
      var s1 := if digits[i] in possible then s else InitCells(s, cols, w, n, cells, digits, i, 0);
      var s' := InitDigits(s1, cols, w, n, cells, digits, possible, i + 1);
      assert cells[0..] == cells;
      forall y | 0 <= y < |s.cageLock|
        ensures BarredFrom(digits, possible, i, GridDigit(n, y)) <==>
          (digits[i] !in possible && Alpha.DigitPosition(digits, digits[i]) == GridDigit(n, y)) || BarredFrom(digits, possible, i + 1, GridDigit(n, y))
      {
        var d := GridDigit(n, y);
        if BarredFrom(digits, possible, i, d) && !(digits[i] !in possible && Alpha.DigitPosition(digits, digits[i]) == d) {
          var i' :| i <= i' < |digits| && 0 <= i' && digits[i'] !in possible && Alpha.DigitPosition(digits, digits[i']) == d;
          assert i' != i;
        }
      }
      s'
  }

  /** Cell (of row y) lies in one of the cages from the k-th on, and that cage's possible digits bar y's digit position. */
  predicate CagedFrom(n: int, cages: seq<CageSpec>, initial: seq<set<int>>, digits: seq<int>, k: int, y: int)
    requires n > 0 && |initial| == |cages|
  {
    exists k' :: k <= k' < |cages| && 0 <= k' && CellOf(n, y) in cages[k'].cells && BarredFrom(digits, initial[k'], 0, GridDigit(n, y))
  }

  /** initMatrix's cage pass from the k-th cage on, each cage with the possible digits initial gives it. */
  function InitCages(s: KState, cols: seq<int>, w: int, n: int, cages: seq<CageSpec>, initial: seq<set<int>>, digits: seq<int>, k: int): (s': KState)
    requires Fit(s, cols, w) && 0 < w && n > 0 && |cols| == 4 * (n * n * n) && |digits| == n
    requires CagesInGrid(cages, n) && |initial| == |cages| && 0 <= k <= |cages|
    ensures Fit(s', cols, w) && s'.active == s.active && s'.conLock == s.conLock
    ensures forall y :: 0 <= y < |s.cageLock| ==> s'.cageLock[y] == (s.cageLock[y] || CagedFrom(n, cages, initial, digits, k, y))
    decreases |cages| - k
  {
    if k == |cages| then s
    else
      var s1 := InitDigits(s, cols, w, n, cages[k].cells, digits, initial[k], 0);
      var s' := InitCages(s1, cols, w, n, cages, initial, digits, k + 1);
      forall y | 0 <= y < |s.cageLock|
        ensures CagedFrom(n, cages, initial, digits, k, y) <==>
          (CellOf(n, y) in cages[k].cells && BarredFrom(digits, initial[k], 0, GridDigit(n, y))) || CagedFrom(n, cages, initial, digits, k + 1, y)
      {
        if CagedFrom(n, cages, initial, digits, k, y) && !(CellOf(n, y) in cages[k].cells && BarredFrom(digits, initial[k], 0, GridDigit(n, y))) {
          var k' :| k <= k' < |cages| && 0 <= k' && CellOf(n, y) in cages[k'].cells && BarredFrom(digits, initial[k'], 0, GridDigit(n, y));
          assert k' != k;
        }
      }
      s'
  }

  /** With a distinct alphabet, a digit position is barred by a set of possible digits exactly when its digit is not in the set. */
  lemma BarredDistinct(digits: seq<int>, possible: set<int>, d: int)
    requires Alpha.Distinct(digits) && 0 <= d < |digits|
    ensures BarredFrom(digits, possible, 0, d) <==> digits[d] !in possible
  {
    Alpha.PositionOfDigit(digits, d);
    if BarredFrom(digits, possible, 0, d) {
      var i' :| 0 <= i' < |digits| && digits[i'] !in possible && Alpha.DigitPosition(digits, digits[i']) == d;
      Alpha.PositionOfDigit(digits, i');
    }
  }

  /**
   * The puzzle a Killer solve works on: the alphabet, the cages, the
   * possible digits each cage reports when initMatrix runs, and the
   * possible digits findCombinations leaves a cage on a given grid.
   */
  datatype Puzzle = Puzzle(digits: seq<int>, cages: seq<CageSpec>, initial: seq<set<int>>, possible: (Values, int) -> set<int>)

  /** The puzzle fits an order-n grid. */
  predicate PuzzleOk(p: Puzzle, n: int)
  {
    n > 0 && |p.digits| == n && CagesInGrid(p.cages, n) && |p.initial| == |p.cages|
  }

  /** The state is a matrix of an order-n grid. */
  predicate KGrid(s: KState, b: int, n: int)
  {
    IsDims(b, n) && Fit(s, Cols(b, n), 4 * n * n)
  }

  /** The state initMatrix's row loop leaves: every node added, every count n, every column active, no row locked. */
  function Initial(b: int, n: int): (s: KState)
    requires IsDims(b, n)
    ensures KGrid(s, b, n)
    ensures forall j :: 0 <= j < 4 * n * n ==> s.active[j]
    ensures forall y :: 0 <= y < n * n * n ==> !s.cageLock[y] && !s.conLock[y]
  {
    ColsApart(b, n);
    KState(Built(Cols(b, n), 4 * n * n, n, |Cols(b, n)|), seq(4 * n * n, j => true), seq(n * n * n, y => false), seq(n * n * n, y => false))
  }

  /**
   * initMatrix: the rows, then the cage pass.  Every column is active, no
   * row is constraint-locked, and a row is cage-locked exactly when some
   * cage holding its cell leaves its digit out.
   */
  function Start(b: int, n: int, p: Puzzle): (s: KState)
    requires IsDims(b, n) && PuzzleOk(p, n)
    ensures KGrid(s, b, n)
    ensures forall j :: 0 <= j < 4 * n * n ==> s.active[j]
    ensures forall y :: 0 <= y < n * n * n ==> !s.conLock[y] && (s.cageLock[y] <==> CagedFrom(n, p.cages, p.initial, p.digits, 0, y))
  {
    InitCages(Initial(b, n), Cols(b, n), 4 * n * n, n, p.cages, p.initial, p.digits, 0)
  }

  /** The index of the first cage holding cell, from the i-th on, or -1 when none does. */
  function CageFrom(cages: seq<CageSpec>, cell: Coord, i: int): (k: int)
    requires 0 <= i <= |cages|
    ensures k == -1 || i <= k < |cages|
    ensures k == -1 <==> forall k' :: i <= k' < |cages| ==> cell !in cages[k'].cells
    ensures k != -1 ==> cell in cages[k].cells && forall k' :: i <= k' < k ==> cell !in cages[k'].cells
    decreases |cages| - i
  {
    if i == |cages| then -1
    else if cell in cages[i].cells then i
    else CageFrom(cages, cell, i + 1)
  }

  /** getCage: the first cage holding the cell, or -1 when none does. */
  function CageOf(cages: seq<CageSpec>, cell: Coord): (k: int)
    ensures k == -1 || 0 <= k < |cages|
    ensures k == -1 <==> forall k' :: 0 <= k' < |cages| ==> cell !in cages[k'].cells
    ensures k != -1 ==> cell in cages[k].cells && forall k' :: 0 <= k' < k ==> cell !in cages[k'].cells
  {
    CageFrom(cages, cell, 0)
  }

  /** How performCalcs ends: true, false, or an exception (a cast of a column header to a node, or a cell in no cage). */
  datatype Status = Solved | Failed | Crashed

  /** The end of performCalcs, the matrix it leaves and the grid it leaves. */
  datatype KOutcome = KOutcome(status: Status, s: KState, v: Values)

  /**
   * What a search from column flags a and grid v promises of its outcome
   * o: on success no column is active; on failure every column active
   * before is active again and every cell holds its old value or is empty;
   * cells stay within the alphabet; and, short of a crash, a filled cell
   * backs every inactive cell column.
   */
  predicate KKept(a: seq<bool>, v: Values, o: KOutcome, digits: seq<int>, n: int)
    requires IsGrid(v, n) && IsGrid(o.v, n) && |a| == |o.s.active|
  {
    (o.status == Solved ==> forall j :: 0 <= j < |o.s.active| ==> !o.s.active[j]) &&
    (o.status == Failed ==> forall j :: 0 <= j < |a| && a[j] ==> o.s.active[j]) &&
    (o.status == Failed ==> forall r, c :: 0 <= r < n && 0 <= c < n ==> o.v[r][c] == v[r][c] || o.v[r][c] == 0) &&
    (Givens(v, digits, n) ==> Givens(o.v, digits, n)) &&
    (o.status != Crashed && Digits(digits, n) && Marked(a, v, n) ==> Marked(o.s.active, o.v, n))
  }

  /**
   * performCalcs with at most fuel nested calls left: true when no column
   * is active; false when the chosen column's count is 0; a crash when
   * the chosen column holds no node; otherwise the rows of the chosen
   * column, walked down from its header.
   */
  function KSearch(s: KState, b: int, n: int, v: Values, p: Puzzle, fuel: nat): (o: KOutcome)
    requires KGrid(s, b, n) && IsGrid(v, n) && PuzzleOk(p, n)
    ensures KGrid(o.s, b, n) && IsGrid(o.v, n) && KKept(s.active, v, o, p.digits, n)
    decreases fuel, 1, 0, 0
  {
    var c := MinActive(s.links.sums, s.active);
    if fuel == 0 then KOutcome(Failed, s, v)
    else if c == -1 then KOutcome(Solved, s, v)
    else if s.links.sums[c] == 0 then KOutcome(Failed, s, v)
    else
      assert Hooked(s.links, Cols(b, n), 4 * n * n, c);
      if s.links.below[c] < 4 * n * n then KOutcome(Crashed, s, v)
      else KTry(s, b, n, v, p, fuel, s.links.below[c])
  }

  /**
   * performCalcs's loop from node q on down: write q's row's digit, re-sync
   * its cell's cage with the row forbidden, remove the row and recurse,
   * then go on as KNext says.  A cell in no cage crashes.
   */
  function KTry(s: KState, b: int, n: int, v: Values, p: Puzzle, fuel: nat, q: int): (o: KOutcome)
    requires KGrid(s, b, n) && IsGrid(v, n) && PuzzleOk(p, n) && fuel >= 1
    requires 0 <= q < 4 * n * n + |Cols(b, n)|
    ensures KGrid(o.s, b, n) && IsGrid(o.v, n) && KKept(s.active, v, o, p.digits, n)
    decreases fuel, 0, q, 1
  {
    var cols, w := Cols(b, n), 4 * n * n;
    if q < w then KOutcome(Failed, s, v)
    else
      var x := RowOf(w, q);
      RowInRange(w, q, n * n * n);
      var v1 := Write(v, p.digits, n, x);
      WriteMarked(s.active, s.active, b, n, v, p.digits, x);
      var k := CageOf(p.cages, CellOf(n, x));
      if k == -1 then KOutcome(Crashed, s, v1)
      else
        var s1 := Sync(s, cols, w, n, p.cages[k].cells, p.digits, p.possible(v1, k), x);
        var s2 := RemoveRow(s1, cols, w, x);
        var o1 := KSearch(s2, b, n, v1, p, fuel - 1);
        var o2 := KNext(b, n, p, fuel, q, k, o1);
        StepKept(s.active, s2.active, b, n, v, p.digits, x, o1, o2);
        o2
  }

  /**
   * After the recursive call from node q returned o: stop unless it
   * failed; on failure empty the cell, reset q's row, re-sync the cage k
   * of its cell again and go on with the node below q as they left it.
   */
  function KNext(b: int, n: int, p: Puzzle, fuel: nat, q: int, k: int, o: KOutcome): (o': KOutcome)
    requires KGrid(o.s, b, n) && IsGrid(o.v, n) && PuzzleOk(p, n) && fuel >= 1
    requires 4 * n * n <= q < 4 * n * n + |Cols(b, n)| && 0 <= k < |p.cages|
    ensures KGrid(o'.s, b, n) && IsGrid(o'.v, n)
    ensures o.status != Failed ==> o' == o
    ensures o.status == Failed ==> var x := RowOf(4 * n * n, q);
      0 <= x < n * n * n && x < |Cols(b, n)| / 4 &&
      KKept(ResetRow(o.s, Cols(b, n), 4 * n * n, x).active, Erase(o.v, n, x), o', p.digits, n)
    decreases fuel, 0, q, 0
  {
    var cols, w := Cols(b, n), 4 * n * n;
    if o.status != Failed then o
    else
      var x := RowOf(w, q);
      RowInRange(w, q, n * n * n);
      var v2 := Erase(o.v, n, x);
      var s2 := Sync(ResetRow(o.s, cols, w, x), cols, w, n, p.cages[k].cells, p.digits, p.possible(v2, k), x);
      assert Hooked(s2.links, cols, w, q);
      KTry(s2, b, n, v2, p, fuel, s2.links.below[q])
  }

  /**
   * Writing row x's digit, with column flags a1 that are a's or a's with
   * x's four columns cleared, keeps the cells within the alphabet and a
   * filled cell behind every inactive cell column.
   */
  lemma WriteMarked(a: seq<bool>, a1: seq<bool>, b: int, n: int, v: Values, digits: seq<int>, x: int)
    requires IsDims(b, n) && IsGrid(v, n) && |digits| == n && 0 <= x < n * n * n && |a| == |a1| == 4 * n * n
    requires forall j :: 0 <= j < 4 * n * n ==> a1[j] == a[j] || (a1[j] == (a[j] && !RowHas(Cols(b, n), j, x)))
    ensures Givens(v, digits, n) ==> Givens(Write(v, digits, n, x), digits, n)
    ensures Digits(digits, n) && Marked(a, v, n) ==> Marked(a1, Write(v, digits, n, x), n)
  {
    var v1 := Write(v, digits, n, x);
    DecodeBounds(n, x);
    var r0, c0 := GridRow(n, x), GridCol(n, x);
    if Digits(digits, n) && Marked(a, v, n) {
      forall r, c | 0 <= r < n && 0 <= c < n && 0 <= r * n + c < |a1| && !a1[r * n + c]
        ensures v1[r][c] != 0
      {
        CellColumnOfRow(b, n, x, r, c);
        if (r, c) == (r0, c0) {
          assert v1[r][c] == digits[GridDigit(n, x)];
        } else {
          assert !a[r * n + c] && v1[r][c] == v[r][c];
        }
      }
    }
  }

  /** Emptying row x's cell, with x's four columns set active again, keeps the cells within the alphabet and a filled cell behind every inactive cell column. */
  lemma EraseMarked(a: seq<bool>, a2: seq<bool>, b: int, n: int, v: Values, digits: seq<int>, x: int)
    requires IsDims(b, n) && IsGrid(v, n) && 0 <= x < n * n * n && |a| == |a2| == 4 * n * n
    requires forall j :: 0 <= j < 4 * n * n ==> a2[j] == (a[j] || RowHas(Cols(b, n), j, x))
    ensures Givens(v, digits, n) ==> Givens(Erase(v, n, x), digits, n)
    ensures Marked(a, v, n) ==> Marked(a2, Erase(v, n, x), n)
  {
    var v2 := Erase(v, n, x);
    DecodeBounds(n, x);
    if Marked(a, v, n) {
      forall r, c | 0 <= r < n && 0 <= c < n && 0 <= r * n + c < |a2| && !a2[r * n + c]
        ensures v2[r][c] != 0
      {
        CellColumnOfRow(b, n, x, r, c);
        assert !a[r * n + c] && v2[r][c] == v[r][c];
      }
    }
  }

  /** One try of the loop at row x, from column flags a to a1 after the removal and on to o2 as KNext goes, keeps the promises made before the try. */
  lemma StepKept(a: seq<bool>, a1: seq<bool>, b: int, n: int, v: Values, digits: seq<int>, x: int, o: KOutcome, o2: KOutcome)
    requires IsDims(b, n) && IsGrid(v, n) && |digits| == n && 0 <= x < n * n * n && x < |Cols(b, n)| / 4
    requires |a| == |a1| == 4 * n * n
    requires forall j :: 0 <= j < 4 * n * n ==> a1[j] == (a[j] && !RowHas(Cols(b, n), j, x))
    requires KGrid(o.s, b, n) && IsGrid(o.v, n) && KGrid(o2.s, b, n) && IsGrid(o2.v, n)
    requires KKept(a1, Write(v, digits, n, x), o, digits, n)
    requires o.status != Failed ==> o2 == o
    requires o.status == Failed ==> KKept(ResetRow(o.s, Cols(b, n), 4 * n * n, x).active, Erase(o.v, n, x), o2, digits, n)
    ensures KKept(a, v, o2, digits, n)
  {
    WriteMarked(a, a1, b, n, v, digits, x);
    if o.status == Failed {
      var a2 := ResetRow(o.s, Cols(b, n), 4 * n * n, x).active;
      EraseMarked(o.s.active, a2, b, n, o.v, digits, x);
      DecodeBounds(n, x);
      KeptChain(a, a1, o.s.active, a2, v, Write(v, digits, n, x), Erase(o.v, n, x), o, o2,
                digits, n, Cols(b, n), x, GridRow(n, x), GridCol(n, x));
    }
  }

  /** A failed try followed by the rest of the loop keeps the promises made for the column flags and grid before the try. */
  lemma KeptChain(a: seq<bool>, a1: seq<bool>, ao: seq<bool>, a2: seq<bool>, v: Values, v1: Values, v2: Values, o: KOutcome, o2: KOutcome,
                  digits: seq<int>, n: int, cols: seq<int>, x: int, r0: int, c0: int)
    requires IsGrid(v, n) && IsGrid(v1, n) && IsGrid(v2, n) && IsGrid(o.v, n) && IsGrid(o2.v, n)
    requires 0 <= x && 4 * x + 4 <= |cols| && ao == o.s.active
    requires |a| == |a1| == |ao| == |a2| == |o2.s.active|
    requires forall j :: 0 <= j < |a| ==> a1[j] == (a[j] && !RowHas(cols, j, x))
    requires forall j :: 0 <= j < |a| ==> a2[j] == (ao[j] || RowHas(cols, j, x))
    requires forall r, c :: 0 <= r < n && 0 <= c < n && (r, c) != (r0, c0) ==> v1[r][c] == v[r][c] && v2[r][c] == o.v[r][c]
    requires 0 <= r0 < n && 0 <= c0 < n && v2[r0][c0] == 0
    requires Givens(v, digits, n) ==> Givens(v1, digits, n)
    requires Givens(o.v, digits, n) ==> Givens(v2, digits, n)
    requires Digits(digits, n) && Marked(a, v, n) ==> Marked(a1, v1, n)
    requires Marked(ao, o.v, n) ==> Marked(a2, v2, n)
    requires o.status == Failed && KKept(a1, v1, o, digits, n) && KKept(a2, v2, o2, digits, n)
    ensures KKept(a, v, o2, digits, n)
  {
    if o2.status == Failed {
      forall j | 0 <= j < |a| && a[j]
        ensures o2.s.active[j]
      {
        if !RowHas(cols, j, x) {
          assert a1[j];
        }
      }
      forall r, c | 0 <= r < n && 0 <= c < n
        ensures o2.v[r][c] == v[r][c] || o2.v[r][c] == 0
      {
        if (r, c) != (r0, c0) {
          assert v2[r][c] == o.v[r][c];
        }
      }
    }
  }

  /** solve on a grid with values v: initMatrix, then performCalcs with room for one nested call per column. */
  function KSolve(v: Values, b: int, n: int, p: Puzzle): (o: KOutcome)
    requires IsDims(b, n) && IsGrid(v, n) && PuzzleOk(p, n)
    ensures KGrid(o.s, b, n) && IsGrid(o.v, n)
  {
    KSearch(Start(b, n, p), b, n, v, p, Depth(n))
  }

  /**
   * On a grid whose cells are empty or hold digits of a distinct nonzero
   * alphabet, a solve that succeeds leaves every cell filled with a digit
   * of the alphabet; one that fails leaves every cell as it was or empty.
   */
  lemma SolveFilled(v: Values, b: int, n: int, p: Puzzle)
    requires IsDims(b, n) && IsGrid(v, n) && PuzzleOk(p, n) && Digits(p.digits, n) && Givens(v, p.digits, n)
    ensures var o := KSolve(v, b, n, p);
      (o.status == Solved ==> forall r, c :: 0 <= r < n && 0 <= c < n ==> o.v[r][c] in p.digits) &&
      (o.status == Failed ==> forall r, c :: 0 <= r < n && 0 <= c < n ==> o.v[r][c] == v[r][c] || o.v[r][c] == 0)
  {
    var s := Start(b, n, p);
    KeptFilled(s.active, v, KSearch(s, b, n, v, p, Depth(n)), p.digits, n);
  }

  /** A search that keeps its promises from all columns active fills every cell with a digit when it succeeds. */
  lemma KeptFilled(a: seq<bool>, v: Values, o: KOutcome, digits: seq<int>, n: int)
    requires IsGrid(v, n) && IsGrid(o.v, n) && |a| == |o.s.active| == 4 * n * n && forall j :: 0 <= j < 4 * n * n ==> a[j]
    requires Digits(digits, n) && Givens(v, digits, n) && KKept(a, v, o, digits, n)
    ensures o.status == Solved ==> forall r, c :: 0 <= r < n && 0 <= c < n ==> o.v[r][c] in digits
    ensures o.status == Failed ==> forall r, c :: 0 <= r < n && 0 <= c < n ==> o.v[r][c] == v[r][c] || o.v[r][c] == 0
  {
    assert Marked(a, v, n);
    if o.status == Solved {
      forall r, c | 0 <= r < n && 0 <= c < n
        ensures o.v[r][c] in digits
      {
        LowPart(n, r, c);
        assert !o.s.active[r * n + c];
      }
    }
  }
}
