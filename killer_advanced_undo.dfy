/**
 * resetConstraintsByRow(x) straight after removeConstraintsByRow(x) in the
 * Killer solver.  The removal walks x's four columns in family order and
 * detaches, for every row it meets that is not cage-locked, that row's
 * other three nodes; the reset walks the same four columns in the same
 * order and reattaches the rows it finds constraint-locked.  So the reset
 * reattaches the detached nodes in the order they left, not in the
 * reverse order of Knuth's Dancing Links.  This module shows that the
 * reset lists exactly the nodes the removal detached, in the same order,
 * so that Relink.LiftDropAll gives back every pointer and every count, and
 * that every constraintLock comes back as well.
 *
 * The starting state is described by its rings: R[h] lists the nodes
 * attached in column h, top to bottom.
 */
module KillerAdvancedUndo {
  import opened Rings
  import opened LinkedMatrix
  import opened Relink
  import opened KillerAdvancedModel

  /** The i nodes p, right of p, ... of one row. */
  function Chain(cols: seq<int>, w: int, p: int, i: int): (ps: seq<int>)
    requires |cols| % 4 == 0 && IsNode(cols, w, p) && 0 <= i <= 4
    ensures |ps| == i && forall k :: 0 <= k < |ps| ==> IsNode(cols, w, ps[k])
    decreases i
  {
    if i == 0 then []
    else
      RightNode(cols, w, p);
      [p] + Chain(cols, w, Right(w, p), i - 1)
  }

  /** The other three nodes of q's row, right of q first: what one row of a column walk detaches. */
  function Span(cols: seq<int>, w: int, q: int): (ps: seq<int>)
    requires |cols| % 4 == 0 && IsNode(cols, w, q)
    ensures |ps| == 3 && forall k :: 0 <= k < |ps| ==> IsNode(cols, w, ps[k])
  {
    RightNode(cols, w, q);
    Chain(cols, w, Right(w, q), 3)
  }

  /** A span holds exactly the nodes of q's row other than q, each once. */
  lemma SpanHas(cols: seq<int>, w: int, q: int)
    requires |cols| % 4 == 0 && IsNode(cols, w, q)
    ensures forall v :: v in Span(cols, w, q) <==> IsNode(cols, w, v) && RowOf(w, v) == RowOf(w, q) && v != q
    ensures forall i, j :: 0 <= i < j < 3 ==> Span(cols, w, q)[i] != Span(cols, w, q)[j]
  {
    var y, f := RowOf(w, q), FamilyOf(w, q);
    var b := w + 4 * y;
    assert q == b + f && 0 <= f < 4;
    RowInRange(w, q, |cols| / 4);
    assert b + 4 <= w + |cols|;
    var sp := Span(cols, w, q);
    assert (b - w) / 4 == y && (b + 1 - w) / 4 == y && (b + 2 - w) / 4 == y && (b + 3 - w) / 4 == y;
    assert (b - w) % 4 == 0 && (b + 1 - w) % 4 == 1 && (b + 2 - w) % 4 == 2 && (b + 3 - w) % 4 == 3;
    if f == 0 {
      assert sp == [b + 1, b + 2, b + 3];
    } else if f == 1 {
      assert sp == [b + 2, b + 3, b];
    } else if f == 2 {
      assert sp == [b + 3, b, b + 1];
    } else {
      assert sp == [b, b + 1, b + 2];
    }
    forall v | IsNode(cols, w, v) && RowOf(w, v) == y
      ensures b <= v < b + 4
    {
      assert v - w == 4 * RowOf(w, v) + FamilyOf(w, v);
    }
  }

  /** The spans of the nodes ps, one after another. */
  function Spans(cols: seq<int>, w: int, ps: seq<int>): (ds: seq<int>)
    requires |cols| % 4 == 0 && forall i :: 0 <= i < |ps| ==> IsNode(cols, w, ps[i])
    ensures |ds| == 3 * |ps| && forall i :: 0 <= i < |ds| ==> IsNode(cols, w, ds[i])
  {
    if |ps| == 0 then []
    else
      assert IsNode(cols, w, ps[0]);
      Span(cols, w, ps[0]) + Spans(cols, w, ps[1..])
  }

  /** Spans distributes over concatenation. */
  lemma {:induction false} SpansAppend(cols: seq<int>, w: int, a: seq<int>, b: seq<int>)
    requires |cols| % 4 == 0 && forall i :: 0 <= i < |a| ==> IsNode(cols, w, a[i])
    requires forall i :: 0 <= i < |b| ==> IsNode(cols, w, b[i])
    ensures forall i :: 0 <= i < |a + b| ==> IsNode(cols, w, (a + b)[i])
    ensures Spans(cols, w, a + b) == Spans(cols, w, a) + Spans(cols, w, b)
    decreases |a|
  {
    if |a| > 0 {
      assert (a + b)[0] == a[0] && (a + b)[1..] == a[1..] + b;
      SpansAppend(cols, w, a[1..], b);
    } else {
      assert a + b == b;
    }
  }

  /** A node in the spans of ps lies in the row of one of ps, and is not that node. */
  lemma {:induction false} SpansRows(cols: seq<int>, w: int, ps: seq<int>, v: int)
    requires |cols| % 4 == 0 && forall i :: 0 <= i < |ps| ==> IsNode(cols, w, ps[i])
    requires v in Spans(cols, w, ps)
    ensures IsNode(cols, w, v) && exists i :: 0 <= i < |ps| && RowOf(w, ps[i]) == RowOf(w, v) && ps[i] != v
    decreases |ps|
  {
    SpanHas(cols, w, ps[0]);
    if v !in Span(cols, w, ps[0]) {
      SpansRows(cols, w, ps[1..], v);
      var i :| 0 <= i < |ps[1..]| && RowOf(w, ps[1..][i]) == RowOf(w, v) && ps[1..][i] != v;
      assert ps[i + 1] == ps[1..][i];
    }
  }

  /** A node of the row of one of ps, other than that node, is in the spans of ps. */
  lemma {:induction false} RowsSpans(cols: seq<int>, w: int, ps: seq<int>, i: int, v: int)
    requires |cols| % 4 == 0 && forall i :: 0 <= i < |ps| ==> IsNode(cols, w, ps[i])
    requires 0 <= i < |ps| && IsNode(cols, w, v) && RowOf(w, ps[i]) == RowOf(w, v) && ps[i] != v
    ensures v in Spans(cols, w, ps)
    decreases |ps|
  {
    SpanHas(cols, w, ps[0]);
    if i > 0 {
      assert ps[1..][i - 1] == ps[i];
      RowsSpans(cols, w, ps[1..], i - 1, v);
    }
  }

  /** The rows of the nodes qs are distinct. */
  predicate RowsDistinct(w: int, qs: seq<int>)
  {
    forall i, j :: 0 <= i < j < |qs| ==> RowOf(w, qs[i]) != RowOf(w, qs[j])
  }

  /** The spans of nodes of distinct rows are distinct nodes. */
  lemma {:induction false} SpansDistinct(cols: seq<int>, w: int, ps: seq<int>)
    requires |cols| % 4 == 0 && forall i :: 0 <= i < |ps| ==> IsNode(cols, w, ps[i])
    requires RowsDistinct(w, ps)
    ensures var ds := Spans(cols, w, ps); forall i, j :: 0 <= i < j < |ds| ==> ds[i] != ds[j]
    decreases |ps|
  {
    if |ps| > 0 {
      var sp, rest := Span(cols, w, ps[0]), Spans(cols, w, ps[1..]);
      SpanHas(cols, w, ps[0]);
      SpansDistinct(cols, w, ps[1..]);
      var ds := sp + rest;
      forall i, j | 0 <= i < j < |ds|
        ensures ds[i] != ds[j]
      {
        if i < 3 && j >= 3 {
          assert ds[j] == rest[j - 3] && ds[i] in sp;
          SpansRows(cols, w, ps[1..], rest[j - 3]);
          var k :| 0 <= k < |ps[1..]| && RowOf(w, ps[1..][k]) == RowOf(w, rest[j - 3]) && ps[1..][k] != rest[j - 3];
          assert ps[1..][k] == ps[k + 1];
        } else if i >= 3 {
          assert ds[i] == rest[i - 3] && ds[j] == rest[j - 3];
        }
      }
    }
  }

  /** A span of drops is DropAll over its chain. */
  lemma {:induction false} DropSpanAll(L: Links, cols: seq<int>, w: int, p: int, i: int)
    requires Ordered(L, cols, w) && IsNode(cols, w, p) && 0 <= i <= 4
    ensures DropSpan(L, cols, w, p, i) == DropAll(L, cols, w, Chain(cols, w, p, i))
    decreases i
  {
    if i > 0 {
      RightNode(cols, w, p);
      var c := Chain(cols, w, Right(w, p), i - 1);
      assert ([p] + c)[0] == p && ([p] + c)[1..] == c;
      DropSpanAll(Drop(L, cols, w, p), cols, w, Right(w, p), i - 1);
    }
  }

  /** A span of lifts is LiftAll over its chain. */
  lemma {:induction false} LiftSpanAll(L: Links, cols: seq<int>, w: int, p: int, i: int)
    requires Ordered(L, cols, w) && IsNode(cols, w, p) && 0 <= i <= 4
    ensures LiftSpan(L, cols, w, p, i) == LiftAll(L, cols, w, Chain(cols, w, p, i))
    decreases i
  {
    if i > 0 {
      RightNode(cols, w, p);
      var c := Chain(cols, w, Right(w, p), i - 1);
      assert ([p] + c)[0] == p && ([p] + c)[1..] == c;
      LiftSpanAll(Lift(L, cols, w, p), cols, w, Right(w, p), i - 1);
    }
  }

  /** Dropping a + b is dropping a, then b. */
  lemma {:induction false} DropAllAppend(L: Links, cols: seq<int>, w: int, a: seq<int>, b: seq<int>)
    requires Ordered(L, cols, w) && (forall i :: 0 <= i < |a| ==> IsNode(cols, w, a[i])) && forall i :: 0 <= i < |b| ==> IsNode(cols, w, b[i])
    ensures forall i :: 0 <= i < |a + b| ==> IsNode(cols, w, (a + b)[i])
    ensures DropAll(L, cols, w, a + b) == DropAll(DropAll(L, cols, w, a), cols, w, b)
    decreases |a|
  {
    if |a| > 0 {
      assert (a + b)[0] == a[0] && (a + b)[1..] == a[1..] + b;
      DropAllAppend(Drop(L, cols, w, a[0]), cols, w, a[1..], b);
    } else {
      assert a + b == b;
    }
  }

  /** Lifting a + b is lifting a, then b. */
  lemma {:induction false} LiftAllAppend(L: Links, cols: seq<int>, w: int, a: seq<int>, b: seq<int>)
    requires Ordered(L, cols, w) && (forall i :: 0 <= i < |a| ==> IsNode(cols, w, a[i])) && forall i :: 0 <= i < |b| ==> IsNode(cols, w, b[i])
    ensures forall i :: 0 <= i < |a + b| ==> IsNode(cols, w, (a + b)[i])
    ensures LiftAll(L, cols, w, a + b) == LiftAll(LiftAll(L, cols, w, a), cols, w, b)
    decreases |a|
  {
    if |a| > 0 {
      assert (a + b)[0] == a[0] && (a + b)[1..] == a[1..] + b;
      LiftAllAppend(Lift(L, cols, w, a[0]), cols, w, a[1..], b);
    } else {
      assert a + b == b;
    }
  }

  /** Detaching q's other three nodes, then the spans of ps, detaches the spans of [q] + ps. */
  lemma DropOthersAll(L: Links, cols: seq<int>, w: int, q: int, ps: seq<int>)
    requires Ordered(L, cols, w) && RowsApart(cols) && IsNode(cols, w, q) && forall i :: 0 <= i < |ps| ==> IsNode(cols, w, ps[i])
    ensures forall i :: 0 <= i < |[q] + ps| ==> IsNode(cols, w, ([q] + ps)[i])
    ensures DropAll(L, cols, w, Spans(cols, w, [q] + ps)) == DropAll(DropOthers(L, cols, w, q), cols, w, Spans(cols, w, ps))
  {
    assert DropOthers(L, cols, w, q) == DropSpan(L, cols, w, Right(w, q), 3);
    DropSpanAll(L, cols, w, Right(w, q), 3);
    assert ([q] + ps)[0] == q && ([q] + ps)[1..] == ps;
    assert Spans(cols, w, [q] + ps) == Span(cols, w, q) + Spans(cols, w, ps);
    DropAllAppend(L, cols, w, Span(cols, w, q), Spans(cols, w, ps));
  }

  /** Reattaching q's other three nodes, then the spans of ps, reattaches the spans of [q] + ps. */
  lemma LiftOthersAll(L: Links, cols: seq<int>, w: int, q: int, ps: seq<int>)
    requires Ordered(L, cols, w) && RowsApart(cols) && IsNode(cols, w, q) && forall i :: 0 <= i < |ps| ==> IsNode(cols, w, ps[i])
    ensures forall i :: 0 <= i < |[q] + ps| ==> IsNode(cols, w, ([q] + ps)[i])
    ensures LiftAll(L, cols, w, Spans(cols, w, [q] + ps)) == LiftAll(LiftOthers(L, cols, w, q), cols, w, Spans(cols, w, ps))
  {
    assert LiftOthers(L, cols, w, q) == LiftSpan(L, cols, w, Right(w, q), 3);
    LiftSpanAll(L, cols, w, Right(w, q), 3);
    assert ([q] + ps)[0] == q && ([q] + ps)[1..] == ps;
    assert Spans(cols, w, [q] + ps) == Span(cols, w, q) + Spans(cols, w, ps);
    LiftAllAppend(L, cols, w, Span(cols, w, q), Spans(cols, w, ps));
  }

  /** removeConstraintsByCol's walk from q detaches, one after another, the spans of the rows it meets that are not cage-locked. */
  lemma {:induction false} CoverLinks(s: KState, cols: seq<int>, w: int, q: int)
    requires Fit(s, cols, w) && 0 <= q < w + |cols|
    ensures CoverFrom(s, cols, w, q).links ==
      DropAll(s.links, cols, w, Spans(cols, w, Picked(cols, w, WalkFrom(s.links, cols, w, q), s.cageLock, false)))
    decreases q
  {
    if q >= w {
      var s1 := CoverStep(s, cols, w, q);
      var q1 := s.links.below[q];
      assert CoverFrom(s, cols, w, q) == CoverFrom(s1, cols, w, q1);
      CoverLinks(s1, cols, w, q1);
      StepLinks(s, cols, w, q);
      WalkBelow(s.links, s1.links, cols, w, q, s.cageLock);
      CoverLinksJoin(s.links, s1.links, CoverFrom(s1, cols, w, q1).links, cols, w, q, s.cageLock, WalkFrom(s.links, cols, w, q1));
    }
  }

  /** Detaching q's row when its cage lock is clear, then the picked spans below, detaches the picked spans of [q] + qs. */
  lemma DropJoin(L: Links, L1: Links, L': Links, cols: seq<int>, w: int, q: int, qs: seq<int>, flags: seq<bool>)
    requires Ordered(L, cols, w) && RowsApart(cols) && IsNode(cols, w, q) && 4 * |flags| == |cols|
    requires forall i :: 0 <= i < |qs| ==> IsNode(cols, w, qs[i])
    requires 0 <= RowOf(w, q) < |flags| && L1 == if flags[RowOf(w, q)] then L else DropOthers(L, cols, w, q)
    requires Ordered(L1, cols, w) && L' == DropAll(L1, cols, w, Spans(cols, w, Picked(cols, w, qs, flags, false)))
    ensures L' == DropAll(L, cols, w, Spans(cols, w, Picked(cols, w, [q] + qs, flags, false)))
  {
    PickedHead(cols, w, q, qs, flags, false);
    var ps := Picked(cols, w, qs, flags, false);
    if !flags[RowOf(w, q)] {
      assert Picked(cols, w, [q] + qs, flags, false) == [q] + ps;
      DropOthersAll(L, cols, w, q, ps);
    } else {
      assert Picked(cols, w, [q] + qs, flags, false) == ps;
    }
  }

  /** The step at q detaches q's row's other nodes when its cage lock is clear, and reattaches them when its constraint lock is set. */
  lemma StepLinks(s: KState, cols: seq<int>, w: int, q: int)
    requires Fit(s, cols, w) && IsNode(cols, w, q)
    ensures 0 <= RowOf(w, q) < |s.conLock| && |s.cageLock| == |s.conLock|
    ensures CoverStep(s, cols, w, q).links == if s.cageLock[RowOf(w, q)] then s.links else DropOthers(s.links, cols, w, q)
    ensures UncoverStep(s, cols, w, q).links == if s.conLock[RowOf(w, q)] then LiftOthers(s.links, cols, w, q) else s.links
  {
    RowFlags(s, cols, w, q);
  }

  /**
   * The arenas before and after the step at node q of a walk, with lock
   * flags for every row.
   */
  ghost predicate Stepped(L: Links, L1: Links, cols: seq<int>, w: int, q: int, flags: seq<bool>)
  {
    Ordered(L, cols, w) && RowsApart(cols) && IsNode(cols, w, q) && Hooked(L, cols, w, q) &&
    4 * |flags| == |cols| && 0 <= RowOf(w, q) < |flags| && Ordered(L1, cols, w)
  }

  /** The walk below q is the same in any arena that keeps q's column as it was. */
  lemma WalkBelow(L: Links, L1: Links, cols: seq<int>, w: int, q: int, flags: seq<bool>)
    requires Stepped(L, L1, cols, w, q, flags) && SameColumn(L, L1, cols, w, cols[q - w])
    ensures WalkFrom(L1, cols, w, L.below[q]) == WalkFrom(L, cols, w, L.below[q])
  {
    WalkSame(L, L1, cols, w, L.below[q]);
  }

  /** The detaching walk from q is the step at q, then the walk qs from the node below q. */
  lemma CoverLinksJoin(L: Links, L1: Links, L': Links, cols: seq<int>, w: int, q: int, flags: seq<bool>, qs: seq<int>)
    requires Stepped(L, L1, cols, w, q, flags) && qs == WalkFrom(L, cols, w, L.below[q])
    requires L1 == (if flags[RowOf(w, q)] then L else DropOthers(L, cols, w, q))
    requires L' == DropAll(L1, cols, w, Spans(cols, w, Picked(cols, w, qs, flags, false)))
    ensures L' == DropAll(L, cols, w, Spans(cols, w, Picked(cols, w, WalkFrom(L, cols, w, q), flags, false)))
  {
    WalkHead(L, cols, w, q);
    DropJoin(L, L1, L', cols, w, q, qs, flags);
  }

  /** resetConstraintsByCol's walk from q reattaches, one after another, the spans of the rows it meets that are constraint-locked. */
  lemma {:induction false} UncoverLinks(s: KState, cols: seq<int>, w: int, q: int)
    requires Fit(s, cols, w) && 0 <= q < w + |cols|
    ensures UncoverFrom(s, cols, w, q).links ==
      LiftAll(s.links, cols, w, Spans(cols, w, Picked(cols, w, WalkFrom(s.links, cols, w, q), s.conLock, true)))
    decreases q
  {
    if q >= w {
      var s1 := UncoverStep(s, cols, w, q);
      var q1 := s.links.below[q];
      assert UncoverFrom(s, cols, w, q) == UncoverFrom(s1, cols, w, q1);
      UncoverLinks(s1, cols, w, q1);
      StepLinks(s, cols, w, q);
      UncoverPickedSame(s, s1, cols, w, q);
      WalkBelow(s.links, s1.links, cols, w, q, s.conLock);
      UncoverLinksJoin(s.links, s1.links, UncoverFrom(s1, cols, w, q1).links, cols, w, q, s.conLock, WalkFrom(s.links, cols, w, q1));
    }
  }

  /** The step at q clears only q's row's constraint lock, a row the walk below q never meets. */
  lemma UncoverPickedSame(s: KState, s1: KState, cols: seq<int>, w: int, q: int)
    requires Fit(s, cols, w) && IsNode(cols, w, q) && s1 == UncoverStep(s, cols, w, q)
    ensures Hooked(s.links, cols, w, q)
    ensures Picked(cols, w, WalkFrom(s.links, cols, w, s.links.below[q]), s1.conLock, true)
         == Picked(cols, w, WalkFrom(s.links, cols, w, s.links.below[q]), s.conLock, true)
  {
    var L := s.links;
    WalkOtherRows(L, cols, w, q);
    var qs1 := WalkFrom(L, cols, w, L.below[q]);
    NodesFlagged(cols, w, qs1, |s.conLock|);
    forall i | 0 <= i < |qs1|
      ensures s1.conLock[RowOf(w, qs1[i])] == s.conLock[RowOf(w, qs1[i])]
    {
      var y := RowOf(w, qs1[i]);
      assert y != RowOf(w, q);
    }
    PickedSame(cols, w, qs1, s1.conLock, true, s.conLock, true);
  }

  /** Reattaching q's row when its constraint lock is set, then the picked spans below, reattaches the picked spans of [q] + qs. */
  lemma LiftJoin(L: Links, L1: Links, L': Links, cols: seq<int>, w: int, q: int, qs: seq<int>, flags: seq<bool>)
    requires Ordered(L, cols, w) && RowsApart(cols) && IsNode(cols, w, q) && 4 * |flags| == |cols|
    requires forall i :: 0 <= i < |qs| ==> IsNode(cols, w, qs[i])
    requires 0 <= RowOf(w, q) < |flags| && L1 == if flags[RowOf(w, q)] then LiftOthers(L, cols, w, q) else L
    requires Ordered(L1, cols, w) && L' == LiftAll(L1, cols, w, Spans(cols, w, Picked(cols, w, qs, flags, true)))
    ensures L' == LiftAll(L, cols, w, Spans(cols, w, Picked(cols, w, [q] + qs, flags, true)))
  {
    PickedHead(cols, w, q, qs, flags, true);
    var ps := Picked(cols, w, qs, flags, true);
    if flags[RowOf(w, q)] {
      assert Picked(cols, w, [q] + qs, flags, true) == [q] + ps;
      LiftOthersAll(L, cols, w, q, ps);
    } else {
      assert Picked(cols, w, [q] + qs, flags, true) == ps;
    }
  }

  /** The reattaching walk from q is the step at q, then the walk qs from the node below q. */
  lemma UncoverLinksJoin(L: Links, L1: Links, L': Links, cols: seq<int>, w: int, q: int, flags: seq<bool>, qs: seq<int>)
    requires Stepped(L, L1, cols, w, q, flags) && qs == WalkFrom(L, cols, w, L.below[q])
    requires L1 == (if flags[RowOf(w, q)] then LiftOthers(L, cols, w, q) else L)
    requires L' == LiftAll(L1, cols, w, Spans(cols, w, Picked(cols, w, qs, flags, true)))
    ensures L' == LiftAll(L, cols, w, Spans(cols, w, Picked(cols, w, WalkFrom(L, cols, w, q), flags, true)))
  {
    WalkHead(L, cols, w, q);
    LiftJoin(L, L1, L', cols, w, q, qs, flags);
  }
}
